/**
 * The NFA as dfa.cpp keeps it: the vector `m_states`, an append-only arena
 * in which states refer to each other only by index. Each state has a set of
 * epsilon targets, a set of omega ("any one character") targets, a multimap
 * from character to target and an accepting flag.
 */
module Arena {
  import opened Cursor
  import opened Outcome

  /** `Nfa::state`; `chars` is the `ch_transitions` multimap as a multiset of pairs. */
  datatype State = State(
    accepting: bool,
    epsilon: set<nat>,
    omega: set<nat>,
    chars: multiset<(byte, nat)>)

  /** A value-initialised state, as `emplace_back()` creates it. */
  const Fresh: State := State(false, {}, {}, multiset{})

  /** Every edge of `s` leads to an index below `n`. */
  ghost predicate EdgesBelow(s: State, n: nat)
  {
    && (forall t | t in s.epsilon :: t < n)
    && (forall t | t in s.omega :: t < n)
    && (forall e | e in s.chars :: e.1 < n)
  }

  /** The arena invariant: every edge points into the arena. */
  ghost predicate Valid(a: seq<State>)
  {
    forall i | 0 <= i < |a| :: EdgesBelow(a[i], |a|)
  }

  /** States are only appended, and every state keeps all the edges it had. */
  ghost predicate KeepsEdges(a: seq<State>, b: seq<State>)
  {
    && |a| <= |b|
    && forall i | 0 <= i < |a| ::
         a[i].epsilon <= b[i].epsilon && a[i].omega <= b[i].omega && a[i].chars <= b[i].chars
  }

  /**
   * `b` is what construction can make of `a`: states are only appended and
   * no accepting flag changes (appended states are not accepting). That
   * edges are only added is `KeepsEdges`, proved for each construct in
   * `Growth`.
   */
  ghost predicate Extends(a: seq<State>, b: seq<State>)
  {
    |a| <= |b| && AcceptingStates(b) == AcceptingStates(a)
  }

  lemma KeepsEdgesTrans(a: seq<State>, b: seq<State>, c: seq<State>)
    requires KeepsEdges(a, b) && KeepsEdges(b, c)
    ensures KeepsEdges(a, c)
  {
  }

  /** An appended state and each kind of emplace keep every existing edge. */
  lemma NewStateKeeps(a: seq<State>)
    ensures KeepsEdges(a, NewState(a))
  {
  }

  lemma AddEpsilonKeeps(a: seq<State>, from: nat, to: nat)
    requires from < |a|
    ensures KeepsEdges(a, AddEpsilon(a, from, to))
  {
  }

  lemma AddCharKeeps(a: seq<State>, from: nat, c: byte, to: nat)
    requires from < |a|
    ensures KeepsEdges(a, AddChar(a, from, c, to))
  {
  }

  /** Edges added from one state keep all the others. */
  lemma EdgesAddedFromKeeps(a: seq<State>, b: seq<State>, from: nat, to: nat)
    requires EdgesAddedFrom(a, b, from, to)
    ensures KeepsEdges(a, b)
  {
  }

  lemma ExtendsTrans(a: seq<State>, b: seq<State>, c: seq<State>)
    requires Extends(a, b) && Extends(b, c)
    ensures Extends(a, c)
  {
  }

  /** The indices of the accepting states. */
  ghost function AcceptingStates(a: seq<State>): (r: set<nat>)
  {
    set i | 0 <= i < |a| && a[i].accepting
  }

  /** `emplace_new_state` on values: one more, empty state. */
  function NewState(a: seq<State>): (b: seq<State>)
    ensures |b| == |a| + 1 && b[..|a|] == a && b[|a|] == Fresh
    ensures Extends(a, b)
    ensures Valid(a) ==> Valid(b)
  {
    a + [Fresh]
  }

  /** `m_states[from].epsilon_transitions.emplace(to)`. */
  function AddEpsilon(a: seq<State>, from: nat, to: nat): (b: seq<State>)
    requires from < |a|
    ensures |b| == |a| && Extends(a, b)
    ensures Valid(a) && to < |a| ==> Valid(b)
  {
    a[from := a[from].(epsilon := a[from].epsilon + {to})]
  }

  /** `m_states[from].omega_transitions.emplace(to)`. */
  function AddOmega(a: seq<State>, from: nat, to: nat): (b: seq<State>)
    requires from < |a|
    ensures |b| == |a| && Extends(a, b)
    ensures Valid(a) && to < |a| ==> Valid(b)
  {
    a[from := a[from].(omega := a[from].omega + {to})]
  }

  /** `m_states[from].ch_transitions.emplace(c, to)`. */
  function AddChar(a: seq<State>, from: nat, c: byte, to: nat): (b: seq<State>)
    requires from < |a|
    ensures |b| == |a| && Extends(a, b)
    ensures Valid(a) && to < |a| ==> Valid(b)
  {
    a[from := a[from].(chars := a[from].chars + multiset{(c, to)})]
  }

  /** One character edge to `to` for each byte of `lo..hi`, inclusive. */
  function RangeEdges(lo: byte, hi: int, to: nat): (m: multiset<(byte, nat)>)
    requires lo - 1 <= hi < 256
    ensures forall e | e in m :: lo <= e.0 <= hi && e.1 == to
    decreases hi - lo
  {
    if hi < lo then multiset{} else RangeEdges(lo, hi - 1, to) + multiset{(hi as byte, to)}
  }

  /** A class range yields exactly `hi - lo + 1` edges, one per byte. */
  lemma {:induction false} RangeEdgesExact(lo: byte, hi: int, to: nat, c: byte)
    requires lo - 1 <= hi < 256
    ensures |RangeEdges(lo, hi, to)| == hi - lo + 1
    ensures RangeEdges(lo, hi, to)[(c, to)] == if lo <= c <= hi then 1 else 0
    decreases hi - lo
  {
    if lo <= hi {
      RangeEdgesExact(lo, hi - 1, to, c);
    }
  }

  /** Counting from the bottom: the range is its lowest edge plus the rest. */
  lemma {:induction false} RangeEdgesFront(lo: byte, hi: byte, to: nat)
    requires lo < hi
    ensures RangeEdges(lo, hi, to) == multiset{(lo, to)} + RangeEdges(lo + 1, hi, to)
    decreases hi - lo
  {
    var low, high := multiset{(lo, to)}, multiset{(hi, to)};
    if lo + 1 < hi {
      RangeEdgesFront(lo, hi - 1, to);
      calc {
        RangeEdges(lo, hi, to);
        RangeEdges(lo, hi - 1, to) + high;
        low + RangeEdges(lo + 1, hi - 1, to) + high;
        low + RangeEdges(lo + 1, hi, to);
      }
    } else {
      assert RangeEdges(lo, lo, to) == RangeEdges(lo, lo - 1, to) + low == low;
      assert RangeEdges(hi, hi, to) == RangeEdges(hi, hi - 1, to) + high == high;
    }
  }

  /** `ch++` on the 8-bit `char` counter of the class loop: 255 wraps to 0. */
  function NextChar(c: byte): (d: byte)
    ensures c < 255 ==> d == c + 1
    ensures c == 255 ==> d == 0
  {
    (c + 1) % 256
  }

  /**
   * The class loop `for(ch = min; ch <= max; ch++)` exactly as written, on an
   * 8-bit counter, allowed `steps` passes of its body: the edges it adds, or
   * None if the guard still holds after `steps` passes.
   */
  function RangeLoopAsWritten(c: byte, hi: byte, to: nat, steps: nat): (m: Option<multiset<(byte, nat)>>)
    ensures hi < c ==> m == Some(multiset{})
    decreases steps
  {
    if hi < c then Some(multiset{})
    else if steps == 0 then None
    else
      var rest := RangeLoopAsWritten(NextChar(c), hi, to, steps - 1);
      if rest.None? then None else Some(multiset{(c, to)} + rest.value)
  }

  /** With `max` == 255 the guard never fails: no number of passes ends the loop. */
  lemma {:induction false} RangeLoopAsWrittenNeverEnds(c: byte, to: nat, steps: nat)
    ensures RangeLoopAsWritten(c, 255, to, steps) == None
    decreases steps
  {
    if steps > 0 {
      RangeLoopAsWrittenNeverEnds(NextChar(c), to, steps - 1);
    }
  }

  /** Below 255 the loop as written ends after `hi - c + 1` passes with the edges of `RangeEdges`. */
  lemma {:induction false} RangeLoopAsWrittenBelowTop(c: byte, hi: byte, to: nat, steps: nat)
    requires c <= hi < 255 && hi - c < steps
    ensures RangeLoopAsWritten(c, hi, to, steps) == Some(RangeEdges(c, hi, to))
    decreases steps
  {
    var edge := multiset{(c, to)};
    if c < hi {
      var rest := RangeEdges(c + 1, hi, to);
      RangeLoopAsWrittenBelowTop(c + 1, hi, to, steps - 1);
      assert NextChar(c) == c + 1;
      assert RangeLoopAsWritten(c, hi, to, steps) == Some(edge + rest);
      RangeEdgesFront(c, hi, to);
    } else {
      assert RangeLoopAsWritten(NextChar(c), hi, to, steps - 1) == Some(multiset{});
      assert RangeLoopAsWritten(c, hi, to, steps) == Some(edge + multiset{});
      assert edge + multiset{} == edge;
      assert RangeEdges(c, hi, to) == RangeEdges(c, hi - 1, to) + edge == edge;
    }
  }

  /** The edges the `for(ch = min; ch <= max; ch++)` loop adds, all at once. */
  function AddRange(a: seq<State>, from: nat, lo: byte, hi: int, to: nat): (b: seq<State>)
    requires from < |a| && lo - 1 <= hi < 256
    ensures |b| == |a| && Extends(a, b)
    ensures Valid(a) && to < |a| ==> Valid(b)
  {
    a[from := a[from].(chars := a[from].chars + RangeEdges(lo, hi, to))]
  }

  /**
   * `b` is `a` except that state `from` gained omega or character edges,
   * all of them into `to`.
   */
  ghost predicate EdgesAddedFrom(a: seq<State>, b: seq<State>, from: nat, to: nat)
  {
    && from < |a|
    && |b| == |a|
    && (forall i | 0 <= i < |a| && i != from :: b[i] == a[i])
    && b[from].accepting == a[from].accepting
    && b[from].epsilon == a[from].epsilon
    && a[from].omega <= b[from].omega
    && a[from].chars <= b[from].chars
    && (forall t | t in b[from].omega - a[from].omega :: t == to)
    && (forall e | e in b[from].chars - a[from].chars :: e.1 == to)
  }

  lemma EdgesAddedFromTrans(a: seq<State>, b: seq<State>, c: seq<State>, from: nat, to: nat)
    requires EdgesAddedFrom(a, b, from, to) && EdgesAddedFrom(b, c, from, to)
    ensures EdgesAddedFrom(a, c, from, to)
  {
    forall t | t in c[from].omega - a[from].omega ensures t == to {
      if t !in c[from].omega - b[from].omega {
        assert t in b[from].omega - a[from].omega;
      }
    }
    forall e | e in c[from].chars - a[from].chars ensures e.1 == to {
      if e !in c[from].chars - b[from].chars {
        assert e in b[from].chars - a[from].chars;
      }
    }
  }

  /** Adding edges from one state leaves the accepting states alone. */
  lemma EdgesAddedFromExtends(a: seq<State>, b: seq<State>, from: nat, to: nat)
    requires EdgesAddedFrom(a, b, from, to)
    ensures Extends(a, b)
  {
    assert forall i | 0 <= i < |a| :: b[i].accepting == a[i].accepting;
  }

  /** Marking state `i` accepting adds `i`, and only `i`, to the accepting states. */
  lemma MarkAccepting(a: seq<State>, i: nat)
    requires i < |a|
    ensures AcceptingStates(a[i := a[i].(accepting := true)]) == AcceptingStates(a) + {i}
  {
  }

  /**
   * `b` is `a` plus one fresh state at index `|a|`, and the only other
   * change is that state `from` gained omega or character edges, all of
   * them into the fresh state.
   */
  ghost predicate OneNewState(a: seq<State>, b: seq<State>, from: nat)
  {
    from < |a| && EdgesAddedFrom(NewState(a), b, from, |a|)
  }

  /** The range loop's step: adding the edge for `c` extends the range to `c`. */
  lemma AddRangeStep(a: seq<State>, from: nat, lo: byte, c: byte, to: nat)
    requires from < |a| && lo <= c
    ensures AddChar(AddRange(a, from, lo, c - 1, to), from, c, to) == AddRange(a, from, lo, c, to)
  {
    var s := a[from];
    assert RangeEdges(lo, c, to) == RangeEdges(lo, c - 1, to) + multiset{(c, to)};
    assert s.chars + RangeEdges(lo, c - 1, to) + multiset{(c, to)} == s.chars + RangeEdges(lo, c, to);
  }

  /** An empty range adds nothing. */
  lemma AddRangeEmpty(a: seq<State>, from: nat, lo: byte, to: nat)
    requires from < |a|
    ensures AddRange(a, from, lo, lo - 1, to) == a
  {
    assert a[from].chars + RangeEdges(lo, lo - 1, to) == a[from].chars;
  }

  /** The epsilon edges of the arena, as (from, to) pairs. */
  ghost function EpsilonEdges(a: seq<State>): (r: set<(nat, nat)>)
  {
    set i, t | 0 <= i < |a| && t in a[i].epsilon :: (i, t)
  }

  /** `a` and `b` have the same states apart from their epsilon edges. */
  ghost predicate SameButEpsilon(a: seq<State>, b: seq<State>)
  {
    && |a| == |b|
    && forall i | 0 <= i < |a| ::
         a[i].accepting == b[i].accepting && a[i].omega == b[i].omega && a[i].chars == b[i].chars
  }

  /** An epsilon emplace adds exactly the pair `(from, to)` and touches nothing else. */
  lemma AddEpsilonEdges(a: seq<State>, from: nat, to: nat)
    requires from < |a|
    ensures EpsilonEdges(AddEpsilon(a, from, to)) == EpsilonEdges(a) + {(from, to)}
    ensures SameButEpsilon(a, AddEpsilon(a, from, to))
  {
    var b := AddEpsilon(a, from, to);
    forall p | p in EpsilonEdges(b) ensures p in EpsilonEdges(a) + {(from, to)} {
      var i, t :| 0 <= i < |b| && t in b[i].epsilon && p == (i, t);
    }
    forall p | p in EpsilonEdges(a) + {(from, to)} ensures p in EpsilonEdges(b) {
      if p != (from, to) {
        var i, t :| 0 <= i < |a| && t in a[i].epsilon && p == (i, t);
        assert t in b[i].epsilon;
      } else {
        assert to in b[from].epsilon;
      }
    }
  }

  /** An omega emplace on a fresh target changes only state `from`, and only by edges into `to`. */
  lemma AddOmegaFrom(a: seq<State>, from: nat, to: nat)
    requires from < |a|
    ensures EdgesAddedFrom(a, AddOmega(a, from, to), from, to)
  {
  }

  /** A class range changes only state `from`, and only by edges into `to`. */
  lemma AddRangeFrom(a: seq<State>, from: nat, lo: byte, hi: int, to: nat)
    requires from < |a| && lo - 1 <= hi < 256
    ensures EdgesAddedFrom(a, AddRange(a, from, lo, hi, to), from, to)
  {
    var b := AddRange(a, from, lo, hi, to);
    assert b[from].chars - a[from].chars <= RangeEdges(lo, hi, to);
  }

  /** A character emplace changes only state `from`, and only by edges into `to`. */
  lemma AddCharFrom(a: seq<State>, from: nat, c: byte, to: nat)
    requires from < |a|
    ensures EdgesAddedFrom(a, AddChar(a, from, c, to), from, to)
  {
    var b := AddChar(a, from, c, to);
    forall e | e in b[from].chars - a[from].chars ensures e.1 == to {
    }
  }
}
