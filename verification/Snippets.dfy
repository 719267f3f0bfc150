/** Cutting marked snippets out of a source file (libs/signals2/doc/snippet_extractor.cpp). */
module Snippets {
  import opened Options
  import opened Strings

  // ---- Lines ----

  const OPENING := "//["
  const CLOSING := "//]"

  predicate Opens(line: string) {
    Find(line, OPENING).Some?
  }

  predicate Closes(line: string) {
    Find(line, CLOSING).Some?
  }

  predicate Blank(c: char) {
    c in " \t\n\r" || c == '\U{000B}' || c == '\U{000C}'
  }

  function SkipBlanks(s: string): string {
    if s != "" && Blank(s[0]) then SkipBlanks(s[1..]) else s
  }

  function UntilBlank(s: string): string {
    if s == "" || Blank(s[0]) then "" else [s[0]] + UntilBlank(s[1..])
  }

  // The first word after the mark. Reading a word from blanks alone leaves them in place.
  function NameIn(line: string): string
    requires Opens(line)
  {
    var rest := line[Find(line, OPENING).value + |OPENING|..];
    if SkipBlanks(rest) == "" then rest else UntilBlank(SkipBlanks(rest))
  }

  // ---- Snippets as the extractor meets them ----

  datatype Snippet = Snippet(name: string, lines: seq<string>, closed: bool)

  // The snippets of a file, and whether all of them had names. The first one without a name ends the run.
  datatype Scan = Scan(snippets: seq<Snippet>, ok: bool)

  function Outside(lines: seq<string>): Scan
    decreases |lines|
  {
    if lines == [] then Scan([], true)
    else if !Opens(lines[0]) then Outside(lines[1..])
    else if NameIn(lines[0]) == "" then Scan([], false)
    else Inside(Snippet(NameIn(lines[0]), [], false), lines[1..])
  }

  function Inside(s: Snippet, lines: seq<string>): Scan
    decreases |lines|
  {
    if lines == [] then Scan([s], true)
    else if Closes(lines[0]) then
      var rest := Outside(lines[1..]);
      rest.(snippets := [s.(closed := true)] + rest.snippets)
    else Inside(s.(lines := s.lines + [lines[0]]), lines[1..])
  }

  // ---- The files it writes ----

  datatype File = File(name: string, text: string)

  function Header(name: string, source: string): string {
    "<!-- Code snippet \"" + name + "\" extracted from \"" + source + "\" by snippet_extractor.\n" +
    "--><code><![CDATA["
  }

  const FOOTER := "]]></code>"

  function Joined(lines: seq<string>): string {
    if lines == [] then "" else Joined(lines[..|lines| - 1]) + lines[|lines| - 1] + "\n"
  }

  function FileOf(source: string, s: Snippet): File {
    File(s.name + ".xml", Header(s.name, source) + Joined(s.lines) + if s.closed then FOOTER else "")
  }

  function FilesOf(source: string, snippets: seq<Snippet>): (files: seq<File>)
    ensures |files| == |snippets| && forall i :: 0 <= i < |files| ==> files[i] == FileOf(source, snippets[i])
  {
    seq(|snippets|, i requires 0 <= i < |snippets| => FileOf(source, snippets[i]))
  }

  lemma FilesOneMore(source: string, snippets: seq<Snippet>, s: Snippet)
    ensures FilesOf(source, snippets + [s]) == FilesOf(source, snippets) + [FileOf(source, s)]
  {
  }

  // Writing to the file opened last.
  function Put(files: seq<File>, text: string): seq<File>
    requires files != []
  {
    var last := files[|files| - 1];
    files[..|files| - 1] + [last.(text := last.text + text)]
  }

  lemma PutOneLine(source: string, done: seq<Snippet>, s: Snippet, line: string)
    requires !s.closed
    ensures Put(FilesOf(source, done + [s]), line + "\n") == FilesOf(source, done + [s.(lines := s.lines + [line])])
  {
    var longer := s.(lines := s.lines + [line]);
    FilesOneMore(source, done, s);
    FilesOneMore(source, done, longer);
    assert longer.lines[..|s.lines|] == s.lines;
    assert Joined(longer.lines) == Joined(s.lines) + line + "\n";
    assert FileOf(source, longer).text == FileOf(source, s).text + (line + "\n");
  }

  lemma PutFooter(source: string, done: seq<Snippet>, s: Snippet)
    requires !s.closed
    ensures Put(FilesOf(source, done + [s]), FOOTER) == FilesOf(source, done + [s.(closed := true)])
  {
    FilesOneMore(source, done, s);
    FilesOneMore(source, done, s.(closed := true));
    assert FileOf(source, s.(closed := true)).text == FileOf(source, s).text + FOOTER;
  }

  lemma FileOpened(source: string, done: seq<Snippet>, name: string)
    ensures FilesOf(source, done) + [File(name + ".xml", Header(name, source))] ==
            FilesOf(source, done + [Snippet(name, [], false)])
  {
    FilesOneMore(source, done, Snippet(name, [], false));
    assert Header(name, source) + Joined([]) + "" == Header(name, source);
  }

  // What remains to be done: the snippets met so far, of which the last one is open or not, and the lines left.
  function Resumed(met: seq<Snippet>, inside: bool, rest: seq<string>): Scan {
    if inside && met != [] then Scanned(met[..|met| - 1], Inside(met[|met| - 1], rest))
    else Scanned(met, Outside(rest))
  }

  function Scanned(done: seq<Snippet>, rest: Scan): Scan {
    rest.(snippets := done + rest.snippets)
  }

  lemma ResumedLine(done: seq<Snippet>, s: Snippet, line: string, rest: seq<string>)
    requires !Closes(line)
    ensures Resumed(done + [s], true, [line] + rest) == Resumed(done + [s.(lines := s.lines + [line])], true, rest)
  {
    assert ([line] + rest)[1..] == rest;
    assert (done + [s])[..|done|] == done == (done + [s.(lines := s.lines + [line])])[..|done|];
  }

  lemma ResumedClosing(done: seq<Snippet>, s: Snippet, line: string, rest: seq<string>)
    requires Closes(line)
    ensures Resumed(done + [s], true, [line] + rest) == Resumed(done + [s.(closed := true)], false, rest)
  {
    assert ([line] + rest)[1..] == rest;
    assert (done + [s])[..|done|] == done;
    assert done + ([s.(closed := true)] + Outside(rest).snippets) ==
           done + [s.(closed := true)] + Outside(rest).snippets;
  }

  lemma ResumedOutside(done: seq<Snippet>, line: string, rest: seq<string>)
    ensures Resumed(done, false, [line] + rest) ==
            if !Opens(line) then Resumed(done, false, rest)
            else if NameIn(line) == "" then Scan(done, false)
            else Resumed(done + [Snippet(NameIn(line), [], false)], true, rest)
  {
    assert ([line] + rest)[1..] == rest;
    assert done + [] == done;
    if Opens(line) {
      assert (done + [Snippet(NameIn(line), [], false)])[..|done|] == done;
    }
  }

  // The loop over the lines of one file. Files are listed in the order in which they are opened.
  method Extract(source: string, lines: seq<string>) returns (files: seq<File>, ok: bool)
    ensures files == FilesOf(source, Outside(lines).snippets) && ok == Outside(lines).ok
  {
    files, ok := [], true;
    var inside := false;
    ghost var met: seq<Snippet> := [];
    for i := 0 to |lines|
      invariant files == FilesOf(source, met)
      invariant inside ==> met != [] && !met[|met| - 1].closed
      invariant Resumed(met, inside, lines[i..]) == Outside(lines)
    {
      var line := lines[i];
      assert lines[i..] == [line] + lines[i + 1..];
      if inside {
        ghost var done, s := met[..|met| - 1], met[|met| - 1];
        assert met == done + [s];
        if Closes(line) {
          files, inside := Put(files, FOOTER), false;
          PutFooter(source, done, s);
          ResumedClosing(done, s, line, lines[i + 1..]);
          met := done + [s.(closed := true)];
        } else {
          files := Put(files, line + "\n");
          PutOneLine(source, done, s, line);
          ResumedLine(done, s, line, lines[i + 1..]);
          met := done + [s.(lines := s.lines + [line])];
        }
      } else {
        ResumedOutside(met, line, lines[i + 1..]);
        if Opens(line) {
          var name := NameIn(line);
          if name == "" {
            return files, false;
          }
          inside := true;
          files := files + [File(name + ".xml", Header(name, source))];
          FileOpened(source, met, name);
          met := met + [Snippet(name, [], false)];
        }
      }
    }
    ResumedNothing(met, inside);
  }

  lemma ResumedNothing(met: seq<Snippet>, inside: bool)
    ensures Resumed(met, inside, []) == Scan(met, true)
  {
    assert met + [] == met;
    assert met != [] ==> met[..|met| - 1] + [met[|met| - 1]] == met;
  }

  // ---- The shape of a file ----

  // A snippet between its marks, and the lines before it.
  datatype Piece = Piece(gap: seq<string>, opening: string, body: seq<string>, closing: string)

  // What follows the last complete snippet.
  datatype Ending =
    | Plain(gap: seq<string>)
    | Unclosed(gap: seq<string>, opening: string, body: seq<string>)
    | Nameless(gap: seq<string>, opening: string, rest: seq<string>)

  ghost predicate NoneOpens(lines: seq<string>) {
    forall i :: 0 <= i < |lines| ==> !Opens(lines[i])
  }

  ghost predicate NoneCloses(lines: seq<string>) {
    forall i :: 0 <= i < |lines| ==> !Closes(lines[i])
  }

  ghost predicate Named(opening: string) {
    Opens(opening) && NameIn(opening) != ""
  }

  ghost predicate FitsPiece(p: Piece) {
    NoneOpens(p.gap) && Named(p.opening) && NoneCloses(p.body) && Closes(p.closing)
  }

  ghost predicate FitsEnding(e: Ending) {
    match e
    case Plain(gap) => NoneOpens(gap)
    case Unclosed(gap, opening, body) => NoneOpens(gap) && Named(opening) && NoneCloses(body)
    case Nameless(gap, opening, _) => NoneOpens(gap) && Opens(opening) && NameIn(opening) == ""
  }

  ghost predicate Fits(pieces: seq<Piece>, e: Ending) {
    (forall i :: 0 <= i < |pieces| ==> FitsPiece(pieces[i])) && FitsEnding(e)
  }

  function EndingLines(e: Ending): seq<string> {
    match e
    case Plain(gap) => gap
    case Unclosed(gap, opening, body) => gap + ([opening] + body)
    case Nameless(gap, opening, rest) => gap + ([opening] + rest)
  }

  // The lines of a file with these pieces.
  function Weave(pieces: seq<Piece>, e: Ending): seq<string> {
    if pieces == [] then EndingLines(e)
    else
      var p := pieces[0];
      p.gap + ([p.opening] + (p.body + ([p.closing] + Weave(pieces[1..], e))))
  }

  function SnippetOf(p: Piece): Snippet
    requires Opens(p.opening)
  {
    Snippet(NameIn(p.opening), p.body, true)
  }

  // What is cut out of such a file.
  function Cut(pieces: seq<Piece>, e: Ending): Scan
    requires forall i :: 0 <= i < |pieces| ==> Opens(pieces[i].opening)
    requires e.Unclosed? ==> Opens(e.opening)
  {
    if pieces == [] then
      match e
      case Plain(_) => Scan([], true)
      case Unclosed(_, opening, body) => Scan([Snippet(NameIn(opening), body, false)], true)
      case Nameless(_, _, _) => Scan([], false)
    else Scanned([SnippetOf(pieces[0])], Cut(pieces[1..], e))
  }

  lemma {:induction false} SkipsGap(gap: seq<string>, rest: seq<string>)
    requires NoneOpens(gap)
    ensures Outside(gap + rest) == Outside(rest)
  {
    if gap == [] {
      assert gap + rest == rest;
    } else {
      assert (gap + rest)[0] == gap[0] && (gap + rest)[1..] == gap[1..] + rest;
      SkipsGap(gap[1..], rest);
    }
  }

  lemma {:induction false} TakesBody(s: Snippet, body: seq<string>, rest: seq<string>)
    requires NoneCloses(body)
    ensures Inside(s, body + rest) == Inside(s.(lines := s.lines + body), rest)
    decreases |body|
  {
    if body == [] {
      assert body + rest == rest && s.lines + body == s.lines;
    } else {
      assert (body + rest)[0] == body[0] && (body + rest)[1..] == body[1..] + rest;
      assert s.lines + [body[0]] + body[1..] == s.lines + body;
      TakesBody(s.(lines := s.lines + [body[0]]), body[1..], rest);
    }
  }

  lemma OpensAfter(gap: seq<string>, opening: string, rest: seq<string>)
    requires NoneOpens(gap) && Opens(opening)
    ensures Outside(gap + ([opening] + rest)) ==
            if NameIn(opening) == "" then Scan([], false) else Inside(Snippet(NameIn(opening), [], false), rest)
  {
    SkipsGap(gap, [opening] + rest);
    assert ([opening] + rest)[1..] == rest;
  }

  // Whatever is woven together is cut out again.
  lemma {:induction false} CutsWhatIsWoven(pieces: seq<Piece>, e: Ending)
    requires Fits(pieces, e)
    ensures Outside(Weave(pieces, e)) == Cut(pieces, e)
  {
    if pieces == [] {
      CutsEnding(e);
    } else {
      var p, rest := pieces[0], Weave(pieces[1..], e);
      var s := Snippet(NameIn(p.opening), [], false);
      OpensAfter(p.gap, p.opening, p.body + ([p.closing] + rest));
      TakesBody(s, p.body, [p.closing] + rest);
      assert s.lines + p.body == p.body;
      assert ([p.closing] + rest)[1..] == rest;
      CutsWhatIsWoven(pieces[1..], e);
    }
  }

  lemma CutsEnding(e: Ending)
    requires FitsEnding(e)
    ensures Outside(EndingLines(e)) == Cut([], e)
  {
    match e
    case Plain(gap) =>
      SkipsGap(gap, []);
      assert gap + [] == gap;
    case Unclosed(gap, opening, body) =>
      OpensAfter(gap, opening, body);
      TakesBody(Snippet(NameIn(opening), [], false), body, []);
      assert body + [] == body && [] + body == body;
    case Nameless(gap, opening, rest) =>
      OpensAfter(gap, opening, rest);
  }

  // And every file whatsoever is woven in this way.
  lemma {:induction false} EveryFileIsWoven(lines: seq<string>) returns (pieces: seq<Piece>, e: Ending)
    ensures Fits(pieces, e) && Weave(pieces, e) == lines
    ensures Outside(lines) == Cut(pieces, e)
    decreases |lines|
  {
    var i := FirstOpening(lines);
    var gap := lines[..i];
    if i == |lines| {
      pieces, e := [], Plain(gap);
    } else {
      var opening, rest := lines[i], lines[i + 1..];
      Around(lines, i);
      if NameIn(opening) == "" {
        pieces, e := [], Nameless(gap, opening, rest);
      } else {
        var j := FirstClosing(rest);
        if j == |rest| {
          assert rest[..j] == rest;
          pieces, e := [], Unclosed(gap, opening, rest);
        } else {
          Around(rest, j);
          var others;
          others, e := EveryFileIsWoven(rest[j + 1..]);
          OneMorePiece(Piece(gap, opening, rest[..j], rest[j]), others, e);
          pieces := [Piece(gap, opening, rest[..j], rest[j])] + others;
        }
      }
    }
    CutsWhatIsWoven(pieces, e);
  }

  lemma Around(lines: seq<string>, i: nat)
    requires i < |lines|
    ensures lines == lines[..i] + ([lines[i]] + lines[i + 1..])
  {
  }

  lemma OneMorePiece(p: Piece, others: seq<Piece>, e: Ending)
    requires FitsPiece(p) && Fits(others, e)
    ensures Fits([p] + others, e)
    ensures Weave([p] + others, e) == p.gap + ([p.opening] + (p.body + ([p.closing] + Weave(others, e))))
  {
    assert ([p] + others)[1..] == others;
  }

  lemma {:induction false} FirstOpening(lines: seq<string>) returns (i: nat)
    ensures i <= |lines| && NoneOpens(lines[..i]) && (i < |lines| ==> Opens(lines[i]))
  {
    if lines == [] || Opens(lines[0]) {
      i := 0;
    } else {
      i := FirstOpening(lines[1..]);
      i := i + 1;
    }
  }

  lemma {:induction false} FirstClosing(lines: seq<string>) returns (i: nat)
    ensures i <= |lines| && NoneCloses(lines[..i]) && (i < |lines| ==> Closes(lines[i]))
  {
    if lines == [] || Closes(lines[0]) {
      i := 0;
    } else {
      i := FirstClosing(lines[1..]);
      i := i + 1;
    }
  }

  // ---- Names ----

  // White space, by the codes of its characters.
  ghost predicate EndsWord(c: char) {
    c as int == 32 || 9 <= c as int <= 13
  }

  ghost predicate Word(s: string) {
    s != "" && forall i :: 0 <= i < |s| ==> !EndsWord(s[i])
  }

  lemma {:induction false} UntilBlankWord(s: string, rest: string)
    requires (forall i :: 0 <= i < |s| ==> !Blank(s[i])) && (rest == "" || Blank(rest[0]))
    ensures UntilBlank(s + rest) == s
  {
    if s == "" {
      assert s + rest == rest;
    } else {
      assert (s + rest)[1..] == s[1..] + rest;
      UntilBlankWord(s[1..], rest);
    }
  }

  lemma {:induction false} SkipBlanksFirst(blanks: string, rest: string)
    requires (forall i :: 0 <= i < |blanks| ==> Blank(blanks[i])) && (rest == "" || !Blank(rest[0]))
    ensures SkipBlanks(blanks + rest) == rest
  {
    if blanks == "" {
      assert blanks + rest == rest;
    } else {
      assert (blanks + rest)[1..] == blanks[1..] + rest;
      SkipBlanksFirst(blanks[1..], rest);
    }
  }

  // Wherever the first mark is, what counts is what follows it.
  lemma MarkAt(prefix: string, rest: string)
    requires forall i: nat :: i < |prefix| ==> !OccursAt(prefix + OPENING + rest, OPENING, i)
    ensures var line := prefix + OPENING + rest;
            Find(line, OPENING) == Some(|prefix|) && line[|prefix| + |OPENING|..] == rest
  {
    var line := prefix + OPENING + rest;
    assert line[|prefix|..|prefix| + |OPENING|] == OPENING;
    assert OccursAt(line, OPENING, |prefix|);
    assert OccursAt(line, OPENING, Find(line, OPENING).value);
  }

  // The name is the word after the first mark of the line, with any blanks before it and anything
  // after a blank ignored.
  lemma NameIsWord(prefix: string, blanks: string, name: string, rest: string)
    requires (forall i :: 0 <= i < |blanks| ==> EndsWord(blanks[i])) && Word(name) && (rest == "" || EndsWord(rest[0]))
    requires forall i: nat :: i < |prefix| ==> !OccursAt(prefix + OPENING + (blanks + (name + rest)), OPENING, i)
    ensures var line := prefix + OPENING + (blanks + (name + rest)); Opens(line) && NameIn(line) == name
  {
    MarkAt(prefix, blanks + (name + rest));
    SkipBlanksFirst(blanks, name + rest);
    UntilBlankWord(name, rest);
  }

  // A line is refused exactly if its first mark is at its very end.
  lemma NamelessIff(line: string)
    requires Opens(line)
    ensures NameIn(line) == "" <==> Find(line, OPENING).value + |OPENING| == |line|
  {
    SkippedBlanks(line[Find(line, OPENING).value + |OPENING|..]);
  }

  lemma {:induction false} SkippedBlanks(s: string)
    ensures SkipBlanks(s) != "" ==> !Blank(SkipBlanks(s)[0])
  {
    if s != "" && Blank(s[0]) {
      SkippedBlanks(s[1..]);
    }
  }

  // A mark with only blanks after it is taken to name a snippet: the blanks are the name.
  lemma BlankName(prefix: string, blanks: string)
    requires forall i :: 0 <= i < |blanks| ==> EndsWord(blanks[i])
    requires forall i: nat :: i < |prefix| ==> !OccursAt(prefix + OPENING + blanks, OPENING, i)
    ensures var line := prefix + OPENING + blanks; Opens(line) && NameIn(line) == blanks
  {
    MarkAt(prefix, blanks);
    SkipBlanksFirst(blanks, "");
    assert blanks + "" == blanks;
  }

  // ---- The text of a file ----

  // Every line is ended.
  lemma {:induction false} JoinedFirst(line: string, rest: seq<string>)
    ensures Joined([]) == "" && Joined([line] + rest) == line + "\n" + Joined(rest)
  {
    var lines := [line] + rest;
    if rest == [] {
      assert lines[..0] == [];
    } else {
      JoinedFirst(line, rest[..|rest| - 1]);
      assert lines[..|lines| - 1] == [line] + rest[..|rest| - 1];
    }
  }

  lemma PlainOpening(name: string)
    requires Word(name)
    ensures Opens("//[" + name) && NameIn("//[" + name) == name
  {
    NameIsWord("", "", name, "");
    assert "" + OPENING + ("" + (name + "")) == "//[" + name;
  }

  lemma PlainBody(body: seq<string>)
    requires forall i, j: nat :: 0 <= i < |body| ==> !OccursAt(body[i], "//]", j)
    ensures NoneCloses(body) && Closes("//]")
  {
    forall i | 0 <= i < |body|
      ensures !Closes(body[i])
    {
      assert Find(body[i], CLOSING).None?;
    }
    assert OccursAt("//]", CLOSING, 0);
  }

  lemma PlainSnippet(name: string, body: seq<string>)
    requires Word(name)
    requires forall i, j: nat :: 0 <= i < |body| ==> !OccursAt(body[i], "//]", j)
    ensures Outside(["//[" + name] + (body + ["//]"])) == Scan([Snippet(name, body, true)], true)
  {
    var opening := "//[" + name;
    PlainOpening(name);
    PlainBody(body);
    OpensAfter([], opening, body + ["//]"]);
    assert [] + ([opening] + (body + ["//]"])) == [opening] + (body + ["//]"]);
    TakesBody(Snippet(name, [], false), body, ["//]"]);
    assert [] + body == body && ["//]"][1..] == [];
  }

  // One snippet in a file, with marks on lines of their own: the name and the lines between them are written
  // in the text that the program puts around them.
  lemma OneSnippet(source: string, name: string, body: seq<string>)
    requires Word(name)
    requires forall i, j: nat :: 0 <= i < |body| ==> !OccursAt(body[i], "//]", j)
    ensures var scan := Outside(["//[" + name] + (body + ["//]"]));
            scan.ok &&
            FilesOf(source, scan.snippets) ==
            [File(name + ".xml",
                  "<!-- Code snippet \"" + name + "\" extracted from \"" + source + "\" by snippet_extractor.\n" +
                  "--><code><![CDATA[" + Joined(body) + "]]></code>")]
  {
    PlainSnippet(name, body);
  }

  lemma JoinedTwo()
    ensures Joined(["a", "b"]) == "a\nb\n"
  {
    JoinedFirst("a", ["b"]);
    JoinedFirst("b", []);
    assert ["a"] + ["b"] == ["a", "b"] && ["b"] + [] == ["b"];
  }

  // The smallest case in full, as the extractor writes it.
  method ExtractTwoLines() returns (files: seq<File>, ok: bool)
    ensures ok
    ensures files == [File("one" + ".xml",
                           "<!-- Code snippet \"" + "one" + "\" extracted from \"" + "x.cpp" +
                           "\" by snippet_extractor.\n" + "--><code><![CDATA[" + "a\nb\n" + "]]></code>")]
  {
    OneSnippet("x.cpp", "one", ["a", "b"]);
    JoinedTwo();
    files, ok := Extract("x.cpp", ["//[" + "one"] + (["a", "b"] + ["//]"]));
  }
}
