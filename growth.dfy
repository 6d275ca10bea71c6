/**
 * Construction never takes an edge away: every parse routine of dfa.cpp
 * only appends states and emplaces edges into `m_states`, so whatever an
 * earlier construct built is still there when the whole regex is done.
 * One lemma per routine of NfaSpec, by the same recursion.
 */
module Growth {
  import opened Cursor
  import opened Outcome
  import opened Arena
  import opened Lex
  import opened NfaSpec

  lemma ElementKeeps(input: seq<byte>, pos: nat, arena: seq<State>, entry: nat)
    requires Valid(arena) && entry < |arena|
    ensures Element(input, pos, arena, entry).Ok? ==> KeepsEdges(arena, Element(input, pos, arena, entry).value.arena)
    decreases Remaining(input, pos), 0, 0
  {
    var ch := At(input, pos);
    if ch == '(' as byte {
      RegexKeeps(input, pos + 1, arena, entry);
    } else {
      var out := |arena|;
      var a := NewState(arena);
      NewStateKeeps(arena);
      if ch == '.' as byte {
        AddOmegaFrom(a, entry, out);
        EdgesAddedFromKeeps(a, AddOmega(a, entry, out), entry, out);
        KeepsEdgesTrans(arena, a, AddOmega(a, entry, out));
      } else if ch == '[' as byte {
        var r := ClassRanges(input, pos + 1, a, entry, out);
        if r.Ok? {
          EdgesAddedFromKeeps(a, r.value.arena, entry, out);
          KeepsEdgesTrans(arena, a, r.value.arena);
        }
      } else {
        forall c: byte ensures KeepsEdges(arena, AddChar(a, entry, c, out)) {
          AddCharKeeps(a, entry, c, out);
          KeepsEdgesTrans(arena, a, AddChar(a, entry, c, out));
        }
      }
    }
  }

  lemma ChunkKeeps(input: seq<byte>, pos: nat, arena: seq<State>, working: nat)
    requires Valid(arena) && working < |arena|
    ensures Chunk(input, pos, arena, working).Ok? ==> KeepsEdges(arena, Chunk(input, pos, arena, working).value.arena)
    decreases Remaining(input, pos), 5, 0
  {
    var ch := At(input, pos);
    if ch != '|' as byte && ch != 0 {
      ElementKeeps(input, pos, arena, working);
      var el := Element(input, pos, arena, working);
      if el.Ok? {
        var e := el.value;
        OperatorKeeps(input, pos, working, e);
        var o := Operator(input, pos, working, e);
        if o.Ok? {
          ChunkKeeps(input, o.value.pos, o.value.arena, o.value.exit);
          KeepsEdgesTrans(arena, e.arena, o.value.arena);
          var r := Chunk(input, o.value.pos, o.value.arena, o.value.exit);
          if r.Ok? {
            KeepsEdgesTrans(arena, o.value.arena, r.value.arena);
          }
        }
      }
    }
  }

  lemma OperatorKeeps(input: seq<byte>, save: nat, working: nat, e: Built)
    requires Valid(e.arena) && working < |e.arena| && e.exit < |e.arena|
    ensures Operator(input, save, working, e).Ok? ==> KeepsEdges(e.arena, Operator(input, save, working, e).value.arena)
    decreases Remaining(input, save), 4, 0
  {
    var op := At(input, e.pos);
    if op == '*' as byte {
      var a := AddEpsilon(e.arena, working, e.exit);
      AddEpsilonKeeps(e.arena, working, e.exit);
      AddEpsilonKeeps(a, e.exit, working);
      KeepsEdgesTrans(e.arena, a, AddEpsilon(a, e.exit, working));
    } else if op == '+' as byte {
      AddEpsilonKeeps(e.arena, e.exit, working);
    } else if op == '?' as byte {
      AddEpsilonKeeps(e.arena, working, e.exit);
    } else if op == '{' as byte {
      BracesKeeps(input, save, e.pos + 1, e.arena, working, e.exit);
    }
  }

  lemma BracesKeeps(input: seq<byte>, save: nat, str: nat, arena: seq<State>, working: nat, next: nat)
    requires Valid(arena) && working < |arena| && next < |arena|
    ensures Braces(input, save, str, arena, working, next).Ok? ==>
      KeepsEdges(arena, Braces(input, save, str, arena, working, next).value.arena)
    decreases Remaining(input, save), 3, 0
  {
    match LexNumberSpec(input, str)
    case Err(_) =>
    case Ok((min, afterMin)) =>
      RepeatKeeps(input, save, min, arena, working, next);
      var c := Repeat(input, save, min, arena, working, next);
      if c.Ok? {
        BracesKindKeeps(input, afterMin, min, c.value);
        var r := BracesKind(input, afterMin, min, c.value);
        if r.Ok? {
          KeepsEdgesTrans(arena, c.value.arena, r.value.arena);
        }
      }
  }

  lemma BracesKindKeeps(input: seq<byte>, str: nat, min: nat, c: Copies)
    requires GrowsCopies(c.arena, c)
    ensures BracesKind(input, str, min, c).Ok? ==> KeepsEdges(c.arena, BracesKind(input, str, min, c).value.arena)
    decreases Remaining(input, c.save), 2, 2
  {
    var kind := At(input, str);
    if kind == '+' as byte {
      AddEpsilonKeeps(c.arena, c.next, c.working);
    } else if kind == '-' as byte {
      BracesMaxKeeps(input, str + 1, min, c);
    }
  }

  lemma BracesMaxKeeps(input: seq<byte>, str: nat, min: nat, c: Copies)
    requires GrowsCopies(c.arena, c)
    ensures BracesMax(input, str, min, c).Ok? ==> KeepsEdges(c.arena, BracesMax(input, str, min, c).value.arena)
    decreases Remaining(input, c.save), 2, 1
  {
    match LexNumberSpec(input, str)
    case Err(_) =>
    case Ok((max, afterMax)) =>
      if min < max {
        OptionalCopiesKeeps(input, c, max, afterMax);
      }
  }

  lemma OptionalCopiesKeeps(input: seq<byte>, c: Copies, max: nat, afterMax: nat)
    requires GrowsCopies(c.arena, c)
    ensures OptionalCopies(input, c, max, afterMax).Ok? ==>
      KeepsEdges(c.arena, OptionalCopies(input, c, max, afterMax).value.arena)
    decreases Remaining(input, c.save), 2, 0
  {
    var end := |c.arena|;
    var a := NewState(c.arena);
    NewStateKeeps(c.arena);
    RepeatOptionalKeeps(input, c.save, max, a, c.working, c.next, end);
    var o := RepeatOptional(input, c.save, max, a, c.working, c.next, end);
    if o.Ok? {
      KeepsEdgesTrans(c.arena, a, o.value.arena);
      AddEpsilonKeeps(o.value.arena, o.value.next, end);
      KeepsEdgesTrans(c.arena, o.value.arena, AddEpsilon(o.value.arena, o.value.next, end));
    }
  }

  lemma RepeatKeeps(input: seq<byte>, save: nat, n: nat, arena: seq<State>, working: nat, next: nat)
    requires Valid(arena) && working < |arena| && next < |arena|
    ensures Repeat(input, save, n, arena, working, next).Ok? ==>
      KeepsEdges(arena, Repeat(input, save, n, arena, working, next).value.arena)
    decreases Remaining(input, save), 1, n
  {
    if n > 0 {
      ElementKeeps(input, save, arena, next);
      var el := Element(input, save, arena, next);
      if el.Ok? {
        var e := el.value;
        RepeatKeeps(input, e.pos, n - 1, e.arena, next, e.exit);
        var r := Repeat(input, e.pos, n - 1, e.arena, next, e.exit);
        if r.Ok? {
          KeepsEdgesTrans(arena, e.arena, r.value.arena);
        }
      }
    }
  }

  lemma RepeatOptionalKeeps(input: seq<byte>, save: nat, n: nat, arena: seq<State>, working: nat, next: nat, end: nat)
    requires Valid(arena) && working < |arena| && next < |arena| && end < |arena|
    ensures RepeatOptional(input, save, n, arena, working, next, end).Ok? ==>
      KeepsEdges(arena, RepeatOptional(input, save, n, arena, working, next, end).value.arena)
    decreases Remaining(input, save), 1, n
  {
    if n > 0 {
      var a := AddEpsilon(arena, next, end);
      AddEpsilonKeeps(arena, next, end);
      ElementKeeps(input, save, a, next);
      var el := Element(input, save, a, next);
      if el.Ok? {
        var e := el.value;
        KeepsEdgesTrans(arena, a, e.arena);
        RepeatOptionalKeeps(input, e.pos, n - 1, e.arena, next, e.exit, end);
        var r := RepeatOptional(input, e.pos, n - 1, e.arena, next, e.exit, end);
        if r.Ok? {
          KeepsEdgesTrans(arena, e.arena, r.value.arena);
        }
      }
    }
  }

  lemma AlternativesKeeps(input: seq<byte>, pos: nat, arena: seq<State>, entry: nat, out: nat)
    requires Valid(arena) && entry < |arena| && out < |arena|
    ensures Alternatives(input, pos, arena, entry, out).Ok? ==>
      KeepsEdges(arena, Alternatives(input, pos, arena, entry, out).value.arena)
    decreases Remaining(input, pos), 6, 0
  {
    ChunkKeeps(input, pos, arena, entry);
    var c := Chunk(input, pos, arena, entry);
    if c.Ok? {
      AlternativesAfterKeeps(input, pos, arena, entry, out, c.value);
      var r := AlternativesAfter(input, pos, arena, entry, out, c.value);
      if r.Ok? {
        var a := AddEpsilon(c.value.arena, c.value.exit, out);
        AddEpsilonKeeps(c.value.arena, c.value.exit, out);
        KeepsEdgesTrans(arena, c.value.arena, a);
        KeepsEdgesTrans(arena, a, r.value.arena);
      }
    }
  }

  /** The rest of the loop keeps even the edge that joins the chunk `c` to `out`. */
  lemma AlternativesAfterKeeps(input: seq<byte>, pos: nat, arena: seq<State>, entry: nat, out: nat, c: Built)
    requires Valid(arena) && entry < |arena| && out < |arena| && Grows(arena, c) && pos <= c.pos
    requires At(input, c.pos) == '|' as byte || At(input, c.pos) == 0
    ensures AlternativesAfter(input, pos, arena, entry, out, c).Ok? ==>
      KeepsEdges(AddEpsilon(c.arena, c.exit, out), AlternativesAfter(input, pos, arena, entry, out, c).value.arena)
    decreases Remaining(input, pos), 5, 1
  {
    var a := AddEpsilon(c.arena, c.exit, out);
    if At(input, c.pos) == '|' as byte {
      AlternativesKeeps(input, c.pos + 1, a, entry, out);
    }
  }

  lemma RegexKeeps(input: seq<byte>, pos: nat, arena: seq<State>, entry: nat)
    requires Valid(arena) && entry < |arena|
    ensures Regex(input, pos, arena, entry).Ok? ==> KeepsEdges(arena, Regex(input, pos, arena, entry).value.arena)
    decreases Remaining(input, pos), 7, 0
  {
    NewStateKeeps(arena);
    AlternativesKeeps(input, pos, NewState(arena), entry, |arena|);
    var r := Regex(input, pos, arena, entry);
    if r.Ok? {
      KeepsEdgesTrans(arena, NewState(arena), r.value.arena);
    }
  }

  /**
   * `parse_regex` joins an alternative to its exit for good: the chunk
   * parsed from `entry` at `pos` has an epsilon edge into `out` in the
   * arena the whole loop returns.
   */
  lemma AlternativesJoinsChunk(input: seq<byte>, pos: nat, arena: seq<State>, entry: nat, out: nat)
    requires Valid(arena) && entry < |arena| && out < |arena|
    requires Chunk(input, pos, arena, entry).Ok? && Alternatives(input, pos, arena, entry, out).Ok?
    ensures
      var c := Chunk(input, pos, arena, entry).value;
      (c.exit, out) in EpsilonEdges(Alternatives(input, pos, arena, entry, out).value.arena)
  {
    var c := Chunk(input, pos, arena, entry).value;
    var a := AddEpsilon(c.arena, c.exit, out);
    AlternativesAfterKeeps(input, pos, arena, entry, out, c);
    var r := Alternatives(input, pos, arena, entry, out).value;
    assert out in a[c.exit].epsilon;
    assert out in r.arena[c.exit].epsilon;
  }
}
