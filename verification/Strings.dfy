/** Searching in strings, as std::string::find and indexOf do. */
module Strings {
  import opened Options

  ghost predicate OccursAt(line: string, mark: string, i: nat) {
    i + |mark| <= |line| && line[i..i + |mark|] == mark
  }

  lemma OccursInTail(line: string, mark: string, i: nat)
    requires line != ""
    ensures OccursAt(line[1..], mark, i) <==> OccursAt(line, mark, i + 1)
  {
    if i + 1 + |mark| <= |line| {
      assert line[1..][i..i + |mark|] == line[i + 1..i + 1 + |mark|];
    }
  }

  // A mark that is not at the start occurs in the rest, one place earlier.
  lemma OccursLater(line: string, mark: string)
    requires line != "" && !(mark <= line)
    ensures forall i: nat :: OccursAt(line, mark, i) ==> i > 0 && OccursAt(line[1..], mark, i - 1)
  {
    forall i: nat | OccursAt(line, mark, i)
      ensures i > 0 && OccursAt(line[1..], mark, i - 1)
    {
      if i > 0 {
        OccursInTail(line, mark, i - 1);
      }
    }
  }

  // Where a mark first occurs in a line.
  function Find(line: string, mark: string): (r: Option<nat>)
    ensures r.Some? ==> OccursAt(line, mark, r.value)
    ensures forall i: nat :: OccursAt(line, mark, i) ==> r.Some? && r.value <= i
  {
    if mark <= line then
      assert line[0..|mark|] == mark;
      Some(0)
    else if line == "" then None
    else
      OccursLater(line, mark);
      match Find(line[1..], mark)
      case None => None
      case Some(i) => OccursInTail(line, mark, i); Some(i + 1)
  }
}
