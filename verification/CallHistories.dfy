/** Calls and their answers: what one thread asked for in a run and what it was told. */
module CallHistories {

  /** The calls are answered one by one, each by a fitting answer, but for the one still open. */
  ghost predicate Answered<C, E>(calls: seq<C>, replies: seq<E>, open: seq<C>, fits: (C, E) -> bool) {
    && |calls| == |replies| + |open| && calls[|replies|..] == open
    && forall i :: 0 <= i < |replies| ==> fits(calls[i], replies[i])
  }

  /** Two stretches of a run, of which the second begins with what the first left open. */
  lemma AnsweredJoin<C, E>(c1: seq<C>, r1: seq<E>, mid: seq<C>, c2: seq<C>, r2: seq<E>, open: seq<C>,
                           fits: (C, E) -> bool)
    requires Answered(c1, r1, mid, fits) && Answered(mid + c2, r2, open, fits)
    ensures Answered(c1 + c2, r1 + r2, open, fits)
  {
    var c, r := c1 + c2, r1 + r2;
    assert c1 == c1[..|r1|] + mid;
    assert c == c1[..|r1|] + (mid + c2);
    forall i | 0 <= i < |r|
      ensures fits(c[i], r[i])
    {
      if i >= |r1| {
        assert c[i] == (mid + c2)[i - |r1|] && r[i] == r2[i - |r1|];
      }
    }
  }

  /** The same with the calls in three parts. */
  lemma AnsweredFrom<C, E>(open0: seq<C>, begun: seq<C>, given: seq<E>, mid: seq<C>, calls: seq<C>, replies: seq<E>,
                           open: seq<C>, fits: (C, E) -> bool)
    requires Answered(open0 + begun, given, mid, fits) && Answered(mid + calls, replies, open, fits)
    ensures Answered(open0 + (begun + calls), given + replies, open, fits)
  {
    assert open0 + (begun + calls) == (open0 + begun) + calls;
    AnsweredJoin(open0 + begun, given, mid, calls, replies, open, fits);
  }
}
