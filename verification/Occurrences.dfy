/** Finding, counting and replacing occurrences of a string, overlapping ones included. */
module Occurrences {
  import opened Wrappers

  predicate Matches(content: string, s: string, i: nat) {
    i + |s| <= |content| && content[i..i + |s|] == s
  }

  /** Every position where `s` starts in `content`. */
  function Positions(content: string, s: string): set<nat> {
    set i: nat | i <= |content| && Matches(content, s, i)
  }

  /** A position is a way to read the content as something before, `s`, and something after. */
  lemma PositionsIff(content: string, s: string, before: string, after: string)
    ensures content == before + s + after ==> |before| in Positions(content, s)
    ensures forall i :: i in Positions(content, s) ==> i + |s| <= |content| && content == content[..i] + s + content[i + |s|..]
  {
    if content == before + s + after {
      assert content[|before|..|before| + |s|] == s;
    }
  }

  /** The least position from `start` on, as `str.find` returns it. */
  function Find(content: string, s: string, start: nat): (r: Option<nat>)
    ensures r.Some? ==> start <= r.value && Matches(content, s, r.value)
                        && forall i :: start <= i < r.value ==> !Matches(content, s, i)
    ensures r.None? ==> forall i :: start <= i ==> !Matches(content, s, i)
    decreases |content| - start
  {
    if start + |s| > |content| then None
    else if Matches(content, s, start) then Some(start)
    else Find(content, s, start + 1)
  }

  function PositionsBelow(content: string, s: string, n: nat): set<nat> {
    set i: nat | i < n && Matches(content, s, i)
  }

  lemma NextPosition(content: string, s: string, index: nat, found: nat)
    requires Find(content, s, index) == Some(found)
    ensures |PositionsBelow(content, s, found + 1)| == |PositionsBelow(content, s, index)| + 1
  {
    hide Matches;
    var below := PositionsBelow(content, s, index);
    forall i: nat
      ensures i in PositionsBelow(content, s, found + 1) <==> i in below + {found}
    {
    }
    assert PositionsBelow(content, s, found + 1) == below + {found};
    assert found !in below;
  }

  lemma AllPositionsBelow(content: string, s: string, index: nat)
    requires Find(content, s, index).None?
    ensures Positions(content, s) == PositionsBelow(content, s, index)
  {
    forall i: nat
      ensures i in Positions(content, s) <==> i in PositionsBelow(content, s, index)
    {
    }
  }

  method CountOccurrences(content: string, s: string) returns (count: nat)
    requires s != ""
    ensures count == |Positions(content, s)|
  {
    count := 0;
    var index := 0;
    while true
      invariant index <= |content|
      invariant count == |PositionsBelow(content, s, index)|
      decreases |content| - index
    {
      var found := Find(content, s, index);
      if found.None? {
        AllPositionsBelow(content, s, index);
        return;
      }
      NextPosition(content, s, index, found.value);
      count := count + 1;
      index := found.value + 1;
    }
  }

  /** `content.replace(s, by, 1)`. */
  function ReplaceFirst(content: string, s: string, replacement: string): string {
    match Find(content, s, 0)
    case None => content
    case Some(i) => content[..i] + replacement + content[i + |s|..]
  }

  /** With a single occurrence, exactly it is swapped and every other character kept. */
  lemma SingleReplaced(content: string, s: string, replacement: string, i: nat)
    requires Positions(content, s) == {i}
    ensures Matches(content, s, i)
    ensures ReplaceFirst(content, s, replacement) == content[..i] + replacement + content[i + |s|..]
  {
    assert i in Positions(content, s);
    assert Find(content, s, 0).Some? && Find(content, s, 0).value in Positions(content, s);
  }

  lemma SinglePosition(content: string, s: string) returns (i: nat)
    requires |Positions(content, s)| == 1
    ensures Positions(content, s) == {i}
  {
    i :| i in Positions(content, s);
    var rest := Positions(content, s) - {i};
    assert |rest| == 0;
    assert Positions(content, s) == {i} + rest;
  }
}
