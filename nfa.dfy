/**
 * The builder as dfa.cpp writes it: the `Nfa` object owns the arena
 * `m_states`, every parse member advances a cursor and edits the arena in
 * place, and a thrown `Regex_Exception` becomes an `Err` result (the object
 * that was being built is then dropped). Each method is proved to agree with
 * the pure function of the same construct in NfaSpec.
 */
module NfaBuilder {
  import opened Cursor
  import opened Outcome
  import opened Arena
  import opened Lex
  import opened NfaSpec

  /**
   * A parse method's result `r` and final arena agree with the pure result
   * `spec`: the same message on failure, otherwise the same exit state,
   * cursor and arena.
   */
  ghost predicate Agrees(r: Result<(nat, nat)>, spec: Result<Built>, arena: seq<State>)
  {
    && (spec.Err? ==> r == Err(spec.message))
    && (spec.Ok? ==> r == Ok((spec.value.exit, spec.value.pos)) && arena == spec.value.arena)
  }

  /** As `Agrees`, for the locals `working_state`, `next_state` and `save_ptr` of a `{...}` loop. */
  ghost predicate AgreesCopies(r: Result<(nat, nat, nat)>, spec: Result<Copies>, arena: seq<State>)
  {
    && (spec.Err? ==> r == Err(spec.message))
    && (spec.Ok? ==> r == Ok((spec.value.working, spec.value.next, spec.value.save)) && arena == spec.value.arena)
  }

  class Nfa {
    /** `m_states`; state 0 is the start state. */
    var states: seq<State>

    /** The `m_states(1)` initialiser: the arena holds only the start state. */
    constructor Init()
      ensures states == [Fresh]
    {
      states := [Fresh];
    }

    /** `Nfa::Nfa(const char*)`: the automaton for `regex`, or the message it fails with. */
    static method FromRegex(regex: seq<byte>) returns (r: Result<Nfa>)
      requires NoNul(regex)
      ensures r.Err? ==> Compile(regex) == Err(r.message)
      ensures r.Ok? ==> fresh(r.value) && Compile(regex) == Ok(r.value.states)
    {
      var nfa := new Nfa.Init();
      var acc := nfa.ParseRegex(regex, 0, 0);
      if acc.Err? {
        return Err(acc.message);
      }
      var accState := acc.value.0;
      nfa.states := nfa.states[accState := nfa.states[accState].(accepting := true)];
      return Ok(nfa);
    }

    /** `emplace_new_state`: appends one empty state and returns its index. */
    method EmplaceNewState() returns (index: nat)
      modifies this
      ensures index == |old(states)| && states == old(states) + [Fresh]
    {
      index := |states|;
      states := states + [Fresh];
    }

    /** `parse_element` at `pos`, entered from `inState`. */
    method ParseElement(input: seq<byte>, pos: nat, inState: nat) returns (r: Result<(nat, nat)>)
      requires Valid(states) && inState < |states|
      modifies this
      ensures Agrees(r, Element(input, pos, old(states), inState), states)
      decreases Remaining(input, pos), 0, 0
    {
      var str := pos;
      var ch := At(input, str);
      str := str + 1;
      if ch == '(' as byte {
        var g := ParseRegex(input, str, inState);
        if g.Err? {
          return Err(g.message);
        }
        var outState := g.value.0;
        str := g.value.1;
        if At(input, str) != ')' as byte {
          return Err(ExpectedCloseParen);
        }
        return Ok((outState, str + 1));
      }
      var outState := EmplaceNewState();
      if ch == '.' as byte {
        states := AddOmega(states, inState, outState);
      } else if ch == '[' as byte {
        var ranges := ParseClass(input, str, inState, outState);
        if ranges.Err? {
          return Err(ranges.message);
        }
        str := ranges.value;
      } else if ch == '/' as byte {
        var esc := ParseEscape(input, str);
        if esc.Err? {
          return Err(esc.message);
        }
        states := AddChar(states, inState, esc.value.0, outState);
        str := esc.value.1;
      } else if IsUnexpected(ch) {
        return Err(UnexpectedMessage(ch));
      } else {
        states := AddChar(states, inState, ch, outState);
      }
      return Ok((outState, str));
    }

    /**
     * The `[` case of `parse_element` from the byte after `[`: every range
     * adds its character edges from `inState` to `outState`, until `]`.
     */
    method ParseClass(input: seq<byte>, pos: nat, inState: nat, outState: nat) returns (r: Result<nat>)
      requires Valid(states) && inState < |states| && outState < |states|
      modifies this
      ensures ClassRanges(input, pos, old(states), inState, outState).Err? ==>
                r == Err(ClassRanges(input, pos, old(states), inState, outState).message)
      ensures ClassRanges(input, pos, old(states), inState, outState).Ok? ==>
                r == Ok(ClassRanges(input, pos, old(states), inState, outState).value.pos)
                && states == ClassRanges(input, pos, old(states), inState, outState).value.arena
    {
      var str := pos;
      ghost var goal := ClassRanges(input, pos, old(states), inState, outState);
      while true
        invariant Valid(states) && inState < |states| && outState < |states| && pos <= str
        invariant ClassRanges(input, str, states, inState, outState) == goal
        decreases Remaining(input, str)
      {
        ClassStep(input, str, states, inState, outState);
        ghost var start := str;
        var lo := At(input, str);
        str := str + 1;
        if At(input, str) != '-' as byte {
          return Err(DashRequired);
        }
        str := str + 1;
        var hi := At(input, str);
        str := str + 1;
        if hi < lo {
          lo, hi := hi, lo;
        }
        ghost var before := states;
        AddRangeEdges(inState, lo, hi, outState);
        assert states == AddRange(before, inState, lo, hi, outState);
        if At(input, str) == ']' as byte {
          assert goal == Ok(Built(states, outState, str + 1));
          return Ok(str + 1);
        }
        assert goal == ClassRanges(input, str, states, inState, outState);
      }
    }

    /** The `for(ch = min; ch <= max; ch++)` loop of a class range. */
    method AddRangeEdges(inState: nat, lo: byte, hi: byte, outState: nat)
      requires inState < |states| && lo <= hi
      modifies this
      ensures states == AddRange(old(states), inState, lo, hi, outState)
    {
      AddRangeEmpty(states, inState, lo, outState);
      for c := lo to hi + 1
        invariant states == AddRange(old(states), inState, lo, c - 1, outState)
      {
        AddRangeStep(old(states), inState, lo, c, outState);
        states := AddChar(states, inState, c, outState);
      }
    }

    /** The `/` case of `parse_element` from the escape letter: the byte it stands for. */
    static method ParseEscape(input: seq<byte>, pos: nat) returns (r: Result<(byte, nat)>)
      ensures r == Escape(input, pos)
    {
      var str := pos;
      var esc := At(input, str);
      str := str + 1;
      var c: byte;
      if esc in Escapable {
        c := esc;
      } else if esc in NamedEscapes {
        c := NamedEscapes[esc];
      } else if esc == 'x' as byte {
        c, str := LexHex(input, str);
      } else {
        return Err(InvalidEscape);
      }
      return Ok((c, str));
    }

    /** `parse_chunk` at `pos`, entered from `inState`. */
    method ParseChunk(input: seq<byte>, pos: nat, inState: nat) returns (r: Result<(nat, nat)>)
      requires Valid(states) && inState < |states|
      modifies this
      ensures Agrees(r, Chunk(input, pos, old(states), inState), states)
      decreases Remaining(input, pos), 5, 0
    {
      var working: nat := inState;
      var str: nat := pos;
      ghost var goal := Chunk(input, pos, old(states), inState);
      while true
        invariant Valid(states) && working < |states| && pos <= str
        invariant Chunk(input, str, states, working) == goal
        decreases Remaining(input, str)
      {
        var savePtr := str;
        var ch := At(input, str);
        if ch == '|' as byte || ch == 0 {
          return Ok((working, str));
        }
        ghost var before := states;
        var e := ParseElement(input, str, working);
        if e.Err? {
          return Err(e.message);
        }
        ghost var element := Element(input, str, before, working).value;
        var o := ApplyOperator(input, savePtr, working, e.value.0, e.value.1);
        if o.Err? {
          return Err(o.message);
        }
        ChunkStep(input, str, before, working, element, Operator(input, savePtr, working, element).value);
        working := o.value.0;
        str := o.value.1;
      }
    }

    /**
     * The operator slot of `parse_chunk`, after an element that began at
     * `savePtr`, ran from `working` to `next` and left the cursor at `str`.
     */
    method ApplyOperator(input: seq<byte>, savePtr: nat, working: nat, next: nat, str: nat) returns (r: Result<(nat, nat)>)
      requires Valid(states) && working < |states| && next < |states|
      modifies this
      ensures Agrees(r, Operator(input, savePtr, working, Built(old(states), next, str)), states)
      decreases Remaining(input, savePtr), 4, 0
    {
      var op := At(input, str);
      var after := str + 1;
      if op == '*' as byte {
        states := AddEpsilon(states, working, next);
        states := AddEpsilon(states, next, working);
      } else if op == '+' as byte {
        states := AddEpsilon(states, next, working);
      } else if op == '?' as byte {
        states := AddEpsilon(states, working, next);
      } else if op == '{' as byte {
        r := ParseBraces(input, savePtr, after, working, next);
        return;
      }
      return Ok((next, after));
    }

    /**
     * The `{` case of `parse_chunk`: `strStart` is just after `{`, the
     * element began at `savePtr` and ran from `working0` to `next0`.
     */
    method ParseBraces(input: seq<byte>, savePtr: nat, strStart: nat, working0: nat, next0: nat) returns (r: Result<(nat, nat)>)
      requires Valid(states) && working0 < |states| && next0 < |states|
      modifies this
      ensures Agrees(r, Braces(input, savePtr, strStart, old(states), working0, next0), states)
      decreases Remaining(input, savePtr), 3, 0
    {
      var str := strStart;
      var lexedMin := LexNumber(input, str);
      if lexedMin.Err? {
        return Err(lexedMin.message);
      }
      var min := lexedMin.value.0;
      str := lexedMin.value.1;
      var copies := RepeatElement(input, savePtr, min, working0, next0);
      if copies.Err? {
        return Err(copies.message);
      }
      r := ParseBracesKind(input, str, min, copies.value.0, copies.value.1, copies.value.2);
    }

    /**
     * The `switch(*str++)` after the minimum of `{...}`, with the locals
     * `working_state`, `next_state` and `save_ptr` the copies left.
     */
    method ParseBracesKind(input: seq<byte>, strStart: nat, min: nat, working: nat, next: nat, save: nat) returns (r: Result<(nat, nat)>)
      requires Valid(states) && working < |states| && next < |states|
      modifies this
      ensures Agrees(r, BracesKind(input, strStart, min, Copies(old(states), working, next, save)), states)
      decreases Remaining(input, save), 2, 2
    {
      var str := strStart;
      var kind := At(input, str);
      str := str + 1;
      if kind == '}' as byte {
      } else if kind == '+' as byte {
        states := AddEpsilon(states, next, working);
        if At(input, str) != '}' as byte {
          return Err(ExpectedCloseBrace);
        }
        str := str + 1;
      } else if kind == '-' as byte {
        r := ParseBracesMax(input, str, min, working, next, save);
        return;
      } else {
        return Err(UnexpectedInBraces);
      }
      return Ok((next, str));
    }

    /** The `-` case of `{...}`: `strStart` is just after the `-`. */
    method ParseBracesMax(input: seq<byte>, strStart: nat, min: nat, working: nat, next: nat, save: nat) returns (r: Result<(nat, nat)>)
      requires Valid(states) && working < |states| && next < |states|
      modifies this
      ensures Agrees(r, BracesMax(input, strStart, min, Copies(old(states), working, next, save)), states)
      decreases Remaining(input, save), 2, 1
    {
      var lexedMax := LexNumber(input, strStart);
      if lexedMax.Err? {
        return Err(lexedMax.message);
      }
      var max := lexedMax.value.0;
      var str := lexedMax.value.1;
      if max < min {
        return Err(MaxBelowMin);
      }
      if max == min {
        return Ok((next, str));
      }
      r := ParseOptionalCopies(input, str, max, working, next, save);
    }

    /** The `{min-max}` tail with max > min: end state, optional copies, `}`. */
    method ParseOptionalCopies(input: seq<byte>, str: nat, max: nat, working: nat, next: nat, save: nat) returns (r: Result<(nat, nat)>)
      requires Valid(states) && working < |states| && next < |states|
      modifies this
      ensures Agrees(r, OptionalCopies(input, Copies(old(states), working, next, save), max, str), states)
      decreases Remaining(input, save), 2, 0
    {
      ghost var spec := OptionalCopies(input, Copies(states, working, next, save), max, str);
      var endState := EmplaceNewState();
      var optional := RepeatOptionalElement(input, save, max, working, next, endState);
      if optional.Err? {
        return Err(optional.message);
      }
      states := AddEpsilon(states, optional.value.1, endState);
      if At(input, str) != '}' as byte {
        return Err(ExpectedCloseBrace);
      }
      return Ok((endState, str + 1));
    }

    /** The `for(i = 0; i < min; i++)` loop of `{...}`: `min` more copies of the element. */
    method RepeatElement(input: seq<byte>, savePtr: nat, n: nat, working0: nat, next0: nat) returns (r: Result<(nat, nat, nat)>)
      requires Valid(states) && working0 < |states| && next0 < |states|
      modifies this
      ensures AgreesCopies(r, Repeat(input, savePtr, n, old(states), working0, next0), states)
      decreases Remaining(input, savePtr), 1, n
    {
      var save: nat := savePtr;
      var working: nat := working0;
      var next: nat := next0;
      ghost var goal := Repeat(input, savePtr, n, old(states), working0, next0);
      for i := 0 to n
        invariant Valid(states) && working < |states| && next < |states| && savePtr <= save
        invariant Repeat(input, save, n - i, states, working, next) == goal
      {
        RepeatStep(input, save, n - i, states, working, next);
        working := next;
        var e := ParseElement(input, save, working);
        if e.Err? {
          return Err(e.message);
        }
        next := e.value.0;
        save := e.value.1;
      }
      return Ok((working, next, save));
    }

    /**
     * The `for(i = 0; i < max; i++)` loop of `{min-max}`: `n` more copies,
     * each entered from a state with an epsilon edge to `endState`.
     */
    method RepeatOptionalElement(input: seq<byte>, savePtr: nat, n: nat, working0: nat, next0: nat, endState: nat)
      returns (r: Result<(nat, nat, nat)>)
      requires Valid(states) && working0 < |states| && next0 < |states| && endState < |states|
      modifies this
      ensures AgreesCopies(r, RepeatOptional(input, savePtr, n, old(states), working0, next0, endState), states)
      decreases Remaining(input, savePtr), 1, n
    {
      var save: nat := savePtr;
      var working: nat := working0;
      var next: nat := next0;
      ghost var goal := RepeatOptional(input, savePtr, n, old(states), working0, next0, endState);
      for i := 0 to n
        invariant Valid(states) && working < |states| && next < |states| && endState < |states| && savePtr <= save
        invariant RepeatOptional(input, save, n - i, states, working, next, endState) == goal
      {
        RepeatOptionalStep(input, save, n - i, states, working, next, endState);
        working := next;
        states := AddEpsilon(states, working, endState);
        var e := ParseElement(input, save, working);
        if e.Err? {
          return Err(e.message);
        }
        next := e.value.0;
        save := e.value.1;
      }
      return Ok((working, next, save));
    }

    /** `parse_regex` at `pos`, entered from `inState`. */
    method ParseRegex(input: seq<byte>, pos: nat, inState: nat) returns (r: Result<(nat, nat)>)
      requires Valid(states) && inState < |states|
      modifies this
      ensures Agrees(r, Regex(input, pos, old(states), inState), states)
      decreases Remaining(input, pos), 7, 0
    {
      var outState := EmplaceNewState();
      var str := pos;
      ghost var goal := Regex(input, pos, old(states), inState);
      while true
        invariant Valid(states) && inState < |states| && outState < |states| && pos <= str
        invariant Alternatives(input, str, states, inState, outState) == goal
        decreases Remaining(input, str)
      {
        ghost var before := states;
        var c := ParseChunk(input, str, inState);
        if c.Err? {
          return Err(c.message);
        }
        ghost var chunk := Chunk(input, str, before, inState).value;
        assert Alternatives(input, str, before, inState, outState) == AlternativesAfter(input, str, before, inState, outState, chunk);
        var chunkOut := c.value.0;
        str := c.value.1;
        states := AddEpsilon(states, chunkOut, outState);
        var sep := At(input, str);
        str := str + 1;
        if sep != '|' as byte {
          return Ok((outState, str));
        }
      }
    }
  }
}
