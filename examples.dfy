/**
 * Whole automata that `Nfa::Nfa(const char*)` builds for small regexes,
 * for any literal bytes `c` and `d`. State 0 is the start, state 1 the
 * accepting exit of the top-level `parse_regex`, and every element state
 * follows in the order of allocation.
 */
module Examples {
  import opened Cursor
  import opened Outcome
  import opened Arena
  import opened NfaSpec
  import opened Properties

  /** A literal that also does not end a chunk. */
  predicate IsPlain(c: byte)
  {
    IsLiteral(c) && c != '|' as byte && c != 0
  }

  /** The two states of `m_states(1)` plus the exit `parse_regex` allocates first. */
  const Start: seq<State> := [Fresh, Fresh]

  /** State 0 with one character edge on `c` to state 2. */
  function After(c: byte): (a: seq<State>)
    ensures a == [State(false, {}, {}, multiset{(c, 2)}), Fresh, Fresh]
  {
    assert NewState(Start) == [Fresh, Fresh, Fresh];
    assert multiset{} + multiset{(c, 2)} == multiset{(c, 2)};
    AddChar(NewState(Start), 0, c, 2)
  }

  /** `c`: start -c-> 2 -eps-> 1, and 1 accepting. */
  lemma CompileLiteral(c: byte)
    requires IsPlain(c)
    ensures Compile([c]) == Ok([
      State(false, {}, {}, multiset{(c, 2)}),
      State(true, {}, {}, multiset{}),
      State(false, {1}, {}, multiset{})])
  {
    var s := [c];
    assert NewState([Fresh]) == Start;
    ChunkSwallowsByte(s, 0, Start, 0);
    assert Chunk(s, 2, After(c), 2) == Ok(Built(After(c), 2, 2));
    assert Alternatives(s, 0, Start, 0, 1) == AlternativesAfter(s, 0, Start, 0, 1, Built(After(c), 2, 2));
    var final := AddEpsilon(After(c), 2, 1);
    assert AlternativesAfter(s, 0, Start, 0, 1, Built(After(c), 2, 2)) == Ok(Built(final, 1, 3));
    assert Regex(s, 0, [Fresh], 0) == Ok(Built(final, 1, 3));
    assert {} + {1} == {1};
    assert final == [State(false, {}, {}, multiset{(c, 2)}), Fresh, State(false, {1}, {}, multiset{})];
    assert Compile(s) == Ok(final[1 := final[1].(accepting := true)]);
    assert final[1 := final[1].(accepting := true)] == [
      State(false, {}, {}, multiset{(c, 2)}), State(true, {}, {}, multiset{}), State(false, {1}, {}, multiset{})];
  }

  /**
   * `cd`, where `d` is not an operator: `d` fills the operator slot after
   * `c` and is dropped, so the automaton is that of `c` alone.
   */
  lemma CompileSwallowsSecondByte(c: byte, d: byte)
    requires IsPlain(c) && d != 0 && !IsOperator(d)
    ensures Compile([c, d]) == Compile([c])
  {
    var s, t := [c, d], [c];
    assert NewState([Fresh]) == Start;
    ChunkSwallowsByte(s, 0, Start, 0);
    ChunkSwallowsByte(t, 0, Start, 0);
    assert Chunk(s, 2, After(c), 2) == Ok(Built(After(c), 2, 2));
    assert Chunk(t, 2, After(c), 2) == Ok(Built(After(c), 2, 2));
    assert Alternatives(s, 0, Start, 0, 1) == AlternativesAfter(s, 0, Start, 0, 1, Built(After(c), 2, 2));
    assert Alternatives(t, 0, Start, 0, 1) == AlternativesAfter(t, 0, Start, 0, 1, Built(After(c), 2, 2));
    var final := AddEpsilon(After(c), 2, 1);
    assert AlternativesAfter(s, 0, Start, 0, 1, Built(After(c), 2, 2)) == Ok(Built(final, 1, 3));
    assert AlternativesAfter(t, 0, Start, 0, 1, Built(After(c), 2, 2)) == Ok(Built(final, 1, 3));
    assert Regex(s, 0, [Fresh], 0) == Regex(t, 0, [Fresh], 0);
  }

  /**
   * `(c)`: the `)` fills the operator slot after `c`, the inner regex runs
   * to the NUL, and the group finds no `)` after it.
   */
  lemma CompileGroupFails(c: byte)
    requires IsPlain(c)
    ensures Compile(['(' as byte, c, ')' as byte]) == Err(ExpectedCloseParen)
  {
    var s := ['(' as byte, c, ')' as byte];
    var a := NewState(Start);
    ChunkSwallowsByte(s, 1, a, 0);
    var inner := AddChar(NewState(a), 0, c, 3);
    assert Chunk(s, 3, inner, 3) == Ok(Built(inner, 3, 3));
    assert Alternatives(s, 1, a, 0, 2) == AlternativesAfter(s, 1, a, 0, 2, Built(inner, 3, 3));
    assert Regex(s, 1, Start, 0) == Ok(Built(AddEpsilon(inner, 3, 2), 2, 4));
    assert Element(s, 0, Start, 0) == Err(ExpectedCloseParen);
    assert Chunk(s, 0, Start, 0) == Err(ExpectedCloseParen);
    assert NewState([Fresh]) == Start;
    assert Regex(s, 0, [Fresh], 0) == Err(ExpectedCloseParen);
  }

  /** `c*`: the skip edge 0 -> 2 and the loop-back edge 2 -> 0. */
  lemma CompileStar(c: byte)
    requires IsPlain(c)
    ensures Compile([c, '*' as byte]) == Ok([
      State(false, {2}, {}, multiset{(c, 2)}),
      State(true, {}, {}, multiset{}),
      State(false, {0, 1}, {}, multiset{})])
  {
    var s := [c, '*' as byte];
    assert NewState([Fresh]) == Start;
    var e := LiteralCopy(s, 0, Start, 0);
    ElementLiteral(s, 0, Start, 0);
    assert Element(s, 0, Start, 0) == Ok(e);
    assert e.arena == After(c);
    var a1 := AddEpsilon(e.arena, 0, 2);
    assert e.arena[0].epsilon + {2} == {2};
    assert a1 == [State(false, {2}, {}, multiset{(c, 2)}), Fresh, Fresh];
    var a := AddEpsilon(a1, 2, 0);
    assert a1[2].epsilon + {0} == {0};
    assert a == [State(false, {2}, {}, multiset{(c, 2)}), Fresh, State(false, {0}, {}, multiset{})];
    assert Operator(s, 0, 0, e) == Ok(Built(a, 2, 2));
    ChunkStep(s, 0, Start, 0, e, Built(a, 2, 2));
    assert Chunk(s, 2, a, 2) == Ok(Built(a, 2, 2));
    assert Alternatives(s, 0, Start, 0, 1) == AlternativesAfter(s, 0, Start, 0, 1, Built(a, 2, 2));
    assert AlternativesAfter(s, 0, Start, 0, 1, Built(a, 2, 2)) == Ok(Built(AddEpsilon(a, 2, 1), 1, 3));
    assert Regex(s, 0, [Fresh], 0) == Ok(Built(AddEpsilon(a, 2, 1), 1, 3));
    var final := AddEpsilon(a, 2, 1);
    assert a[2].epsilon + {1} == {0, 1};
    assert final == [State(false, {2}, {}, multiset{(c, 2)}), Fresh, State(false, {0, 1}, {}, multiset{})];
    assert Compile(s) == Ok(final[1 := final[1].(accepting := true)]);
    assert final[1 := final[1].(accepting := true)] == [
      State(false, {2}, {}, multiset{(c, 2)}), State(true, {}, {}, multiset{}), State(false, {0, 1}, {}, multiset{})];
  }

  /** The arena after a literal element with a `*` entered from `entry`. */
  function Starred(a: seq<State>, entry: nat, c: byte): (b: seq<State>)
    requires entry < |a|
    ensures |b| == |a| + 1 && Extends(a, b) && (Valid(a) ==> Valid(b))
  {
    AddEpsilon(AddEpsilon(AddChar(NewState(a), entry, c, |a|), entry, |a|), |a|, entry)
  }

  /** A chunk that is one literal with a `*`, up to a `|` or the end. */
  lemma ChunkStarred(s: seq<byte>, pos: nat, a: seq<State>, entry: nat)
    requires Valid(a) && entry < |a| && IsPlain(At(s, pos)) && At(s, pos + 1) == '*' as byte
    requires At(s, pos + 2) == '|' as byte || At(s, pos + 2) == 0
    ensures Chunk(s, pos, a, entry) == Ok(Built(Starred(a, entry, At(s, pos)), |a|, pos + 2))
  {
    var e := LiteralCopy(s, pos, a, entry);
    ElementLiteral(s, pos, a, entry);
    assert Element(s, pos, a, entry) == Ok(e);
    var o := Built(Starred(a, entry, At(s, pos)), |a|, pos + 2);
    assert Operator(s, pos, entry, e) == Ok(o);
    ChunkStep(s, pos, a, entry, e, o);
  }

  /**
   * `c*|d*` as a regex entered from `entry`: both alternatives start at
   * `entry`, and the exit of each is joined to the exit state allocated
   * first.
   */
  lemma RegexAlternatives(s: seq<byte>, pos: nat, arena: seq<State>, entry: nat)
    requires Valid(arena) && entry < |arena|
    requires IsPlain(At(s, pos)) && At(s, pos + 1) == '*' as byte && At(s, pos + 2) == '|' as byte
    requires IsPlain(At(s, pos + 3)) && At(s, pos + 4) == '*' as byte && At(s, pos + 5) == 0
    ensures
      var out := |arena|;
      var first := AddEpsilon(Starred(NewState(arena), entry, At(s, pos)), out + 1, out);
      var second := AddEpsilon(Starred(first, entry, At(s, pos + 3)), out + 2, out);
      Regex(s, pos, arena, entry) == Ok(Built(second, out, pos + 6))
  {
    var out := |arena|;
    var a0 := NewState(arena);
    var a := Starred(a0, entry, At(s, pos));
    ChunkStarred(s, pos, a0, entry);
    AlternativesFirstChunk(s, pos, a0, entry, out, Built(a, out + 1, pos + 2));
    AlternativesContinue(s, pos, a0, entry, out, Built(a, out + 1, pos + 2));
    var b := AddEpsilon(a, out + 1, out);
    var a2 := Starred(b, entry, At(s, pos + 3));
    ChunkStarred(s, pos + 3, b, entry);
    AlternativesFirstChunk(s, pos + 3, b, entry, out, Built(a2, out + 2, pos + 5));
  }

  /**
   * `c*|d*`: both alternatives start at state 0, each loops on its own
   * state, and both exits are joined to the accepting state 1.
   */
  lemma CompileAlternatives(c: byte, d: byte)
    requires IsPlain(c) && IsPlain(d)
    ensures Compile([c, '*' as byte, '|' as byte, d, '*' as byte]) == Ok([
      State(false, {2, 3}, {}, multiset{(c, 2), (d, 3)}),
      State(true, {}, {}, multiset{}),
      State(false, {0, 1}, {}, multiset{}),
      State(false, {0, 1}, {}, multiset{})])
  {
    var s := [c, '*' as byte, '|' as byte, d, '*' as byte];
    RegexAlternatives(s, 0, [Fresh], 0);
    assert NewState([Fresh]) == Start;
    AlternativesArena(c, d);
  }

  /** The arena of `c*|d*` before its exit is marked, state by state. */
  lemma AlternativesArena(c: byte, d: byte)
    ensures
      var final := AddEpsilon(Starred(AddEpsilon(Starred(Start, 0, c), 2, 1), 0, d), 3, 1);
      final[1 := final[1].(accepting := true)] == [
        State(false, {2, 3}, {}, multiset{(c, 2), (d, 3)}),
        State(true, {}, {}, multiset{}),
        State(false, {0, 1}, {}, multiset{}),
        State(false, {0, 1}, {}, multiset{})]
  {
    assert multiset{} + multiset{(c, 2)} == multiset{(c, 2)};
    assert multiset{(c, 2)} + multiset{(d, 3)} == multiset{(c, 2), (d, 3)};
    assert {} + {2} == {2} && {2} + {3} == {2, 3};
    assert {} + {0} == {0} && {0} + {1} == {0, 1};
  }
}
