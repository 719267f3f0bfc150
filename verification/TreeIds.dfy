/** The dotted ids of a table of contents (libs/iostreams/doc/tree/tree.js). */
module TreeIds {
  import opened Options
  import opened Decimals
  import opened JsNumbers

  // A node's path: kid indices from the root.
  type Path = seq<nat>

  // The id below a node: a dot and a number counted from one, for each step.
  function Label(p: Path): string {
    if p == [] then "" else Label(p[..|p| - 1]) + "." + Decimal(p[|p| - 1] + 1)
  }

  // ---- Splitting at dots ----

  // Put one more character in front: a dot opens a new part.
  function Prepend(c: char, parts: seq<string>): (longer: seq<string>)
    requires parts != []
    ensures longer != []
  {
    if c == '.' then [""] + parts else [[c] + parts[0]] + parts[1..]
  }

  function Split(s: string): (parts: seq<string>)
    ensures parts != []
  {
    if s == "" then [""] else Prepend(s[0], Split(s[1..]))
  }

  lemma {:induction false} SplitPlain(s: string)
    requires '.' !in s
    ensures Split(s) == [s]
  {
    if s != "" {
      SplitPlain(s[1..]);
      assert [s[0]] + s[1..] == s;
    }
  }

  lemma SplitStep(c: char, s: string)
    ensures Split([c] + s) == Prepend(c, Split(s))
  {
    assert ([c] + s)[1..] == s;
  }

  lemma PrependJoined(c: char, a: seq<string>, b: seq<string>)
    requires a != []
    ensures Prepend(c, a + b) == Prepend(c, a) + b
  {
    assert (a + b)[1..] == a[1..] + b;
  }

  lemma {:induction false} SplitJoined(a: string, b: string)
    ensures Split(a + ("." + b)) == Split(a) + Split(b)
  {
    if a == "" {
      assert a + ("." + b) == ['.'] + b;
      SplitStep('.', b);
    } else {
      var c, rest := a[0], a[1..];
      assert a + ("." + b) == [c] + (rest + ("." + b));
      SplitStep(c, rest + ("." + b));
      SplitJoined(rest, b);
      PrependJoined(c, Split(rest), Split(b));
    }
  }

  function Numerals(p: Path): (parts: seq<string>)
    ensures |parts| == |p| && forall i :: 0 <= i < |p| ==> parts[i] == Decimal(p[i] + 1)
  {
    seq(|p|, i requires 0 <= i < |p| => Decimal(p[i] + 1))
  }

  lemma {:induction false} SplitLabel(prefix: string, p: Path)
    requires '.' !in prefix
    ensures Split(prefix + Label(p)) == [prefix] + Numerals(p)
  {
    if p == [] {
      SplitPlain(prefix);
      assert prefix + "" == prefix;
    } else {
      var front, numeral := p[..|p| - 1], Decimal(p[|p| - 1] + 1);
      SplitLabel(prefix, front);
      NumeralHasNoDot(p[|p| - 1] + 1);
      SplitPlain(numeral);
      SplitJoined(prefix + Label(front), numeral);
      DotAssociates(prefix, Label(front), numeral);
      assert Numerals(p) == Numerals(front) + [numeral];
    }
  }

  lemma DotAssociates(a: string, b: string, c: string)
    ensures a + (b + "." + c) == a + b + ("." + c) == a + b + "." + c
  {
  }

  lemma NumeralHasNoDot(n: nat)
    ensures '.' !in Decimal(n)
  {
    DecimalIsNumeral(n);
  }

  // ---- What a list of id parts means ----

  // Read in some way, the parts are the numbers of the path, counting from one.
  ghost predicate Spells(read: string -> Option<int>, parts: seq<string>, p: Path) {
    |parts| == |p| && forall i :: 0 <= i < |p| ==> read(parts[i]) == Some(p[i] + 1)
  }

  lemma SpellsUnique(read: string -> Option<int>, parts: seq<string>, p: Path, q: Path)
    requires Spells(read, parts, p) && Spells(read, parts, q)
    ensures p == q
  {
    forall i | 0 <= i < |p|
      ensures p[i] == q[i]
    {
      assert read(parts[i]) == Some(p[i] + 1) && read(parts[i]) == Some(q[i] + 1);
    }
  }

  lemma SpellsPrefix(read: string -> Option<int>, parts: seq<string>, p: Path, z: nat)
    requires Spells(read, parts, p) && z <= |parts|
    ensures Spells(read, parts[..z], p[..z])
  {
    forall i | 0 <= i < z
      ensures read(parts[..z][i]) == Some(p[..z][i] + 1)
    {
      assert read(parts[i]) == Some(p[i] + 1);
    }
  }

  lemma SpellsNext(read: string -> Option<int>, parts: seq<string>, p: Path, part: string, z: nat)
    requires Spells(read, parts, p) && read(part) == Some(z + 1)
    ensures Spells(read, parts + [part], p + [z])
  {
    var longer, q := parts + [part], p + [z];
    forall i | 0 <= i < |q|
      ensures read(longer[i]) == Some(q[i] + 1)
    {
      if i < |p| {
        assert read(parts[i]) == Some(p[i] + 1);
      }
    }
  }

  // The parts are converted to the numbers of the path.
  ghost predicate Denotes(parts: seq<string>, p: Path) {
    Spells(ToNumber, parts, p)
  }

  lemma DenotesUnique(parts: seq<string>, p: Path, q: Path)
    requires Denotes(parts, p) && Denotes(parts, q)
    ensures p == q
  {
    SpellsUnique(ToNumber, parts, p, q);
  }

  lemma DenotesPrefix(parts: seq<string>, p: Path, q: Path, z: nat)
    requires z < |parts| && Denotes(parts, p) && Denotes(parts[..z], q)
    ensures q < p && |q| == z && ToNumber(parts[z]) == Some(p[z] + 1)
  {
    SpellsPrefix(ToNumber, parts, p, z);
    SpellsUnique(ToNumber, parts[..z], p[..z], q);
  }

  lemma DenotesNext(parts: seq<string>, p: Path, part: string, z: nat)
    requires Denotes(parts, p) && ToNumber(part) == Some(z + 1)
    ensures Denotes(parts + [part], p + [z])
  {
    SpellsNext(ToNumber, parts, p, part, z);
  }

  lemma NumeralsDenote(p: Path)
    ensures Denotes(Numerals(p), p)
  {
    forall i | 0 <= i < |p|
      ensures ToNumber(Numerals(p)[i]) == Some(p[i] + 1)
    {
      NumbersOfDecimal(p[i] + 1);
    }
  }

  // Ids are distinct.
  lemma LabelInjective(p: Path, q: Path)
    requires Label(p) == Label(q)
    ensures p == q
  {
    SplitLabel("", p);
    SplitLabel("", q);
    assert "" + Label(p) == "" + Label(q);
    assert Numerals(p) == Split("" + Label(p))[1..] == Numerals(q);
    NumeralsDenote(p);
    NumeralsDenote(q);
    DenotesUnique(Numerals(p), p, q);
  }

  function Dots(s: string): nat {
    if s == "" then 0 else (if s[0] == '.' then 1 else 0) + Dots(s[1..])
  }

  lemma {:induction false} DotsAreParts(s: string)
    ensures |Split(s)| == Dots(s) + 1
  {
    if s != "" {
      DotsAreParts(s[1..]);
    }
  }

  // An id has as many dots as its node is deep.
  lemma LabelDots(p: Path)
    ensures Dots(Label(p)) == |p|
  {
    SplitLabel("", p);
    assert "" + Label(p) == Label(p);
    DotsAreParts(Label(p));
  }

  lemma {:induction false} LabelStartsWithDot(p: Path)
    requires p != []
    ensures Label(p) != "" && Label(p)[0] == '.'
  {
    var front, numeral := p[..|p| - 1], Decimal(p[|p| - 1] + 1);
    assert Label(p) == Label(front) + ("." + numeral);
    if front != [] {
      LabelStartsWithDot(front);
    }
  }

  // Without its leading dot an id splits into its numbers alone.
  lemma LabelWithoutDot(p: Path)
    requires p != []
    ensures Label(p) != "" && Split(Label(p)[1..]) == Numerals(p)
  {
    LabelStartsWithDot(p);
    SplitLabel("", p);
    assert "" + Label(p) == Label(p) == ['.'] + Label(p)[1..];
    SplitStep('.', Label(p)[1..]);
    assert Split(Label(p))[1..] == Split(Label(p)[1..]);
  }

  lemma {:induction false} LabelFrom(p: Path, q: Path)
    ensures Label(p + q) == Label(p) + Label(q)
  {
    if q == [] {
      assert p + q == p;
    } else {
      var front, numeral := q[..|q| - 1], Decimal(q[|q| - 1] + 1);
      LabelFrom(p, front);
      assert (p + q)[..|p + q| - 1] == p + front;
      DotAssociates(Label(p), Label(front), numeral);
    }
  }

  // Ids of kids: the parent's id, a dot, and the kid's number.
  lemma LabelOfKid(p: Path, z: nat)
    ensures Label(p + [z]) == Label(p) + "." + Decimal(z + 1)
  {
    assert (p + [z])[..|p|] == p;
  }

  // ---- The order of a traversal that takes kids from right to left ----

  // The paths part ways, and p takes the later kid.
  ghost predicate RightOf(p: Path, q: Path) {
    p != [] && q != [] && (p[0] > q[0] || (p[0] == q[0] && RightOf(p[1..], q[1..])))
  }

  // A node comes before its descendants, and before everything to its left.
  ghost predicate Precedes(p: Path, q: Path) {
    p < q || RightOf(p, q)
  }

  lemma {:induction false} RightOfExtends(p: Path, q: Path, p': Path, q': Path)
    requires RightOf(p, q) && p <= p' && q <= q'
    ensures RightOf(p', q')
  {
    if p[0] == q[0] {
      RightOfExtends(p[1..], q[1..], p'[1..], q'[1..]);
    }
  }

  lemma PrecedesExtends(p: Path, q: Path, q': Path)
    requires Precedes(p, q) && q <= q'
    ensures Precedes(p, q')
  {
    if RightOf(p, q) {
      RightOfExtends(p, q, p, q');
    }
  }

  lemma {:induction false} RightOfIrreflexive(p: Path)
    ensures !RightOf(p, p)
  {
    if p != [] {
      RightOfIrreflexive(p[1..]);
    }
  }

  lemma {:induction false} LaterKidIsRight(p: Path, a: nat, b: nat)
    requires a < b
    ensures RightOf(p + [b], p + [a])
  {
    if p != [] {
      LaterKidIsRight(p[1..], a, b);
      assert (p + [b])[1..] == p[1..] + [b] && (p + [a])[1..] == p[1..] + [a];
    }
  }

  lemma {:induction false} RightOfAsymmetric(p: Path, q: Path)
    requires RightOf(p, q)
    ensures !RightOf(q, p)
  {
    if p[0] == q[0] {
      RightOfAsymmetric(p[1..], q[1..]);
    }
  }

  lemma PrecedesAsymmetric(p: Path, q: Path)
    requires Precedes(p, q)
    ensures !Precedes(q, p)
  {
    RightOfIrreflexive(p);
    RightOfIrreflexive(q);
    if RightOf(p, q) {
      RightOfAsymmetric(p, q);
      if q < p {
        RightOfExtends(p, q, p, p);
      }
    } else if RightOf(q, p) {
      RightOfExtends(q, p, q, q);
    }
  }
}
