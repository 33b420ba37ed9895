/** The Filter operator: a relational select over its child's tuples. */
module Filters {
  import opened JavaLang
  import opened TupleDescs
  import opened Tuples
  import opened DbIterators

  /** The index of the first tuple of s that the predicate keeps, or |s| when it keeps none. */
  function FirstKept(keep: Row -> bool, s: seq<Row>): (n: nat)
    ensures n <= |s|
    ensures forall i :: 0 <= i < n ==> !keep(s[i])
    ensures n < |s| ==> keep(s[n])
  {
    if |s| == 0 then 0
    else if keep(s[0]) then 0
    else 1 + FirstKept(keep, s[1..])
  }

  /** The first kept index is the index with no kept tuple before it that is kept itself
      (or |s|). */
  lemma FirstKeptIs(keep: Row -> bool, s: seq<Row>, i: nat)
    requires i <= |s| && (forall j :: 0 <= j < i ==> !keep(s[j])) && (i < |s| ==> keep(s[i]))
    ensures FirstKept(keep, s) == i
  {
  }

  /** The tuples of s the predicate keeps, in order: what the whole filter hands out. */
  function Selected(keep: Row -> bool, s: seq<Row>): (r: seq<Row>)
    ensures |r| <= |s|
  {
    if |s| == 0 then []
    else (if keep(s[0]) then [s[0]] else []) + Selected(keep, s[1..])
  }

  /** Every tuple handed out is kept by the predicate, and every kept tuple is handed out. */
  lemma {:induction false} SelectedMembers(keep: Row -> bool, s: seq<Row>)
    ensures forall x :: x in Selected(keep, s) <==> x in s && keep(x)
  {
    if |s| > 0 {
      SelectedMembers(keep, s[1..]);
      assert s == [s[0]] + s[1..];
    }
  }

  /** One readNext hands out the first kept tuple and leaves the rest of the selection to
      the tuples after it; when nothing is kept, the selection is empty. */
  lemma {:induction false} SelectedStep(keep: Row -> bool, s: seq<Row>)
    ensures var n := FirstKept(keep, s);
            Selected(keep, s) == if n < |s| then [s[n]] + Selected(keep, s[n + 1..]) else []
  {
    if |s| > 0 {
      SelectedStep(keep, s[1..]);
      var m := FirstKept(keep, s[1..]);
      if !keep(s[0]) && m < |s| - 1 {
        assert s[1..][m + 1..] == s[m + 2..];
      }
    }
  }

  class Filter {
    /** Predicate.filter, which is not part of this model: any test of a tuple. */
    const p: Row -> bool
    const child: LookAhead

    ghost predicate Valid()
      reads this, child
    {
      child.Valid()
    }

    constructor (p: Row -> bool, child: LookAhead)
      ensures this.p == p && this.child == child
    {
      this.p := p;
      this.child := child;
    }

    /** getTupleDesc(): the child's schema. */
    function GetTupleDesc(): (td: TupleDesc)
      ensures td == child.td
    {
      child.td
    }

    /** readNext(): child tuples the predicate rejects are consumed and dropped; the first
        one it keeps is returned. Null comes back, with the child exhausted, exactly when
        no remaining child tuple is kept. */
    method ReadNext() returns (t: Option<Row>)
      requires Valid()
      modifies child
      ensures Valid()
      ensures var s := old(child.Remaining());
              var n := FirstKept(p, s);
              (n < |s| ==> t == Some(s[n]) && child.Remaining() == s[n + 1..]) &&
              (n == |s| ==> t.None? && child.Remaining() == [])
    {
      ghost var s := child.Remaining();
      ghost var i := 0;
      while true
        invariant child.Valid() && i <= |s| && child.Remaining() == s[i..]
        invariant forall j :: 0 <= j < i ==> !p(s[j])
        decreases |s| - i
      {
        var more := child.HasNext();
        if !more {
          FirstKeptIs(p, s, i);
          return None;
        }
        var cur := child.Next();
        if p(cur.value) {
          FirstKeptIs(p, s, i);
          return Some(cur.value);
        }
        i := i + 1;
      }
    }

    /** open() and rewind(): the child starts over. */
    method Rewind()
      requires Valid()
      modifies child
      ensures Valid() && child.Remaining() == old(child.Rewound())
    {
      child.Rewind();
    }

    /** close(): closes the child (super.close() empties this operator's own look-ahead). */
    method Close()
      requires Valid()
      modifies child
      ensures Valid() && child.buffered.None? && child.pos == old(child.pos)
    {
      child.Close();
    }
  }
}
