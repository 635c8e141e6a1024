/** The part of malloc/free that the shell uses: heap strings named by number.
    A freed string's number is never reused, so a second Free of it cannot meet its requires. */
module CHeap {
  class Heap {
    var cells: map<nat, string>  // the live strings
    var next: nat                // every number handed out so far is below this

    ghost predicate Valid()
      reads this
    {
      forall p | p in cells :: p < next
    }

    constructor ()
      ensures Valid() && cells == map[] && next == 0
    {
      cells, next := map[], 0;
    }

    method Strdup(s: string) returns (p: nat)
      requires Valid()
      modifies this
      ensures Valid()
      ensures p == old(next) && next == old(next) + 1
      ensures cells == old(cells)[p := s]
    {
      p := next;
      cells := cells[p := s];
      next := next + 1;
    }

    method Free(p: nat)
      requires Valid() && p in cells
      modifies this
      ensures Valid()
      ensures next == old(next) && cells == old(cells) - {p}
    {
      cells := cells - {p};
    }
  }

  /** The heap cells that hold `ss` at consecutive numbers from `base`. */
  ghost function StringsAt(base: nat, ss: seq<string>): map<nat, string> {
    if ss == [] then map[] else StringsAt(base, ss[..|ss| - 1])[base + |ss| - 1 := ss[|ss| - 1]]
  }

  lemma {:induction false} StringsAtCells(base: nat, ss: seq<string>)
    ensures forall p: nat :: p in StringsAt(base, ss) <==> base <= p < base + |ss|
    ensures forall i | 0 <= i < |ss| :: StringsAt(base, ss)[base + i] == ss[i]
  {
    if ss != [] {
      StringsAtCells(base, ss[..|ss| - 1]);
    }
  }

  lemma StringsAtExtend(base: nat, ss: seq<string>, s: string)
    ensures StringsAt(base, ss + [s]) == StringsAt(base, ss)[base + |ss| := s]
  {
    assert (ss + [s])[..|ss|] == ss;
  }

  lemma StringsAtDrop(base: nat, ss: seq<string>)
    requires ss != []
    ensures base in StringsAt(base, ss) && StringsAt(base, ss)[base] == ss[0]
    ensures StringsAt(base, ss) - {base} == StringsAt(base + 1, ss[1..])
  {
    hide StringsAt;
    var m, m' := StringsAt(base, ss), StringsAt(base + 1, ss[1..]);
    StringsAtCells(base, ss);
    StringsAtCells(base + 1, ss[1..]);
    assert m[base + 0] == ss[0];
    forall p | p in m' ensures p in m && m[p] == m'[p] {
      var k := p - (base + 1);
      assert m'[base + 1 + k] == ss[1..][k] && m[base + (k + 1)] == ss[k + 1];
    }
  }
}
