/**
 * What the construction promises, stated over the pure model of NfaSpec:
 * the edges each element adds, what the operator slot does with the byte
 * after an element, how `{...}` re-parses an element from `save_ptr`, and
 * the arenas it builds for a one-byte element.
 */
module Properties {
  import opened Cursor
  import opened Outcome
  import opened Arena
  import opened Lex
  import opened NfaSpec

  /** A byte that `parse_element` takes as a literal character (the `default` case). */
  predicate IsLiteral(c: byte)
  {
    c != '(' as byte && c != '.' as byte && c != '[' as byte && c != '/' as byte && !IsUnexpected(c)
  }

  /**
   * `b` is `a` with one fresh state appended at index `|a|`, and the only
   * other change is that state `from` gained the character edge `(c, |a|)`.
   */
  ghost predicate AddsCharEdge(a: seq<State>, b: seq<State>, from: nat, c: byte)
    requires from < |a|
  {
    && |b| == |a| + 1
    && b[|a|] == Fresh
    && b[..|a|] == a[from := a[from].(chars := a[from].chars + multiset{(c, |a|)})]
  }

  /** The bytes that act in the operator slot after an element. */
  predicate IsOperator(c: byte)
  {
    c == '*' as byte || c == '+' as byte || c == '?' as byte || c == '{' as byte
  }

  /** The epsilon edges the operator byte `op` adds between an element's entry and exit. */
  function OperatorEpsilon(op: byte, entry: nat, exit: nat): (r: set<(nat, nat)>)
  {
    if op == '*' as byte then {(entry, exit), (exit, entry)}
    else if op == '+' as byte then {(exit, entry)}
    else if op == '?' as byte then {(entry, exit)}
    else {}
  }

  /**
   * Every element but a group allocates exactly one state, is left through
   * it, and adds edges only from its entry state and only into that state.
   */
  lemma ElementAddsOneState(input: seq<byte>, pos: nat, arena: seq<State>, entry: nat)
    requires Valid(arena) && entry < |arena| && At(input, pos) != '(' as byte
    requires Element(input, pos, arena, entry).Ok?
    ensures Element(input, pos, arena, entry).value.exit == |arena|
    ensures OneNewState(arena, Element(input, pos, arena, entry).value.arena, entry)
  {
    var ch := At(input, pos);
    var a := NewState(arena);
    if ch == '.' as byte {
      AddOmegaFrom(a, entry, |arena|);
    } else if ch == '[' as byte {
    } else if ch == '/' as byte {
      var esc := Escape(input, pos + 1).value;
      AddCharFrom(a, entry, esc.0, |arena|);
    } else {
      AddCharFrom(a, entry, ch, |arena|);
    }
  }

  /** A literal byte adds exactly one character edge, on itself, to a fresh state. */
  lemma ElementLiteral(input: seq<byte>, pos: nat, arena: seq<State>, entry: nat)
    requires Valid(arena) && entry < |arena| && IsLiteral(At(input, pos))
    ensures Element(input, pos, arena, entry).Ok?
    ensures Element(input, pos, arena, entry).value.exit == |arena|
    ensures Element(input, pos, arena, entry).value.pos == pos + 1
    ensures AddsCharEdge(arena, Element(input, pos, arena, entry).value.arena, entry, At(input, pos))
  {
    var b := Element(input, pos, arena, entry).value.arena;
    assert b[..|arena|] == arena[entry := arena[entry].(chars := arena[entry].chars + multiset{(At(input, pos), |arena|)})];
  }

  /** `.` adds exactly one omega edge to a fresh state and no character edge. */
  lemma ElementAnyChar(input: seq<byte>, pos: nat, arena: seq<State>, entry: nat)
    requires Valid(arena) && entry < |arena| && At(input, pos) == '.' as byte
    ensures Element(input, pos, arena, entry).Ok?
    ensures
      var b := Element(input, pos, arena, entry).value;
      && b.exit == |arena| && b.pos == pos + 1 && |b.arena| == |arena| + 1 && b.arena[|arena|] == Fresh
      && b.arena[..|arena|] == arena[entry := arena[entry].(omega := arena[entry].omega + {|arena|})]
  {
    var b := Element(input, pos, arena, entry).value.arena;
    assert b[..|arena|] == arena[entry := arena[entry].(omega := arena[entry].omega + {|arena|})];
  }

  /**
   * A one-range class `[x-y]` adds, from the entry to a fresh state, one
   * character edge for every byte between x and y (in either order) and
   * none for any other byte.
   */
  lemma ElementSingleRange(input: seq<byte>, pos: nat, arena: seq<State>, entry: nat, c: byte)
    requires Valid(arena) && entry < |arena|
    requires At(input, pos) == '[' as byte && At(input, pos + 2) == '-' as byte && At(input, pos + 4) == ']' as byte
    ensures Element(input, pos, arena, entry).Ok?
    ensures
      var b := Element(input, pos, arena, entry).value;
      var x, y := At(input, pos + 1), At(input, pos + 3);
      && b.exit == |arena| && b.pos == pos + 5
      && OneNewState(arena, b.arena, entry)
      && b.arena[entry].omega == arena[entry].omega
      && b.arena[entry].chars[(c, |arena|)] == if x <= c <= y || y <= c <= x then 1 else 0
  {
    var a := NewState(arena);
    var x, y := At(input, pos + 1), At(input, pos + 3);
    ClassStep(input, pos + 1, a, entry, |arena|);
    assert a[entry].chars[(c, |arena|)] == 0 by {
      assert EdgesBelow(arena[entry], |arena|);
    }
    if y < x {
      RangeEdgesExact(y, x, |arena|, c);
    } else {
      RangeEdgesExact(x, y, |arena|, c);
    }
  }

  /**
   * The character edges a class adds, read directly off the text from the
   * byte after `[`: each `lo-hi` range (in either order) contributes one
   * edge per byte to `to`, up to the `]`; None when a `-` is missing.
   */
  ghost function ClassEdges(input: seq<byte>, pos: nat, to: nat): (m: Option<multiset<(byte, nat)>>)
    decreases Remaining(input, pos)
  {
    if At(input, pos + 1) != '-' as byte then None
    else
      var lo, hi := At(input, pos), At(input, pos + 2);
      var edges := if hi < lo then RangeEdges(hi, lo, to) else RangeEdges(lo, hi, to);
      if At(input, pos + 3) == ']' as byte then Some(edges)
      else
        var rest := ClassEdges(input, pos + 3, to);
        if rest.None? then None else Some(edges + rest.value)
  }

  /** Character edges added to one state in two rounds are their sum added once. */
  lemma AddCharsTwice(a: seq<State>, i: nat, first: multiset<(byte, nat)>, second: multiset<(byte, nat)>)
    requires i < |a|
    ensures
      var b := a[i := a[i].(chars := a[i].chars + first)];
      b[i := b[i].(chars := b[i].chars + second)] == a[i := a[i].(chars := a[i].chars + (first + second))]
  {
    assert a[i].chars + first + second == a[i].chars + (first + second);
  }

  /**
   * The class loop fails exactly when some range before the `]` lacks its
   * `-`, and then with the class message.
   */
  lemma {:induction false} ClassRangesOutcome(input: seq<byte>, pos: nat, arena: seq<State>, entry: nat, exit: nat)
    requires Valid(arena) && entry < |arena| && exit < |arena|
    ensures ClassRanges(input, pos, arena, entry, exit).Ok? <==> ClassEdges(input, pos, exit).Some?
    ensures ClassRanges(input, pos, arena, entry, exit).Err? ==> ClassRanges(input, pos, arena, entry, exit).message == DashRequired
    decreases Remaining(input, pos)
  {
    ClassStep(input, pos, arena, entry, exit);
    if At(input, pos + 1) == '-' as byte && At(input, pos + 3) != ']' as byte {
      var lo, hi := At(input, pos), At(input, pos + 2);
      var a := if hi < lo then AddRange(arena, entry, hi, lo, exit) else AddRange(arena, entry, lo, hi, exit);
      ClassRangesOutcome(input, pos + 3, a, entry, exit);
    }
  }

  /**
   * On success the class loop has added exactly the edges of `ClassEdges`
   * to the entry state and changed nothing else.
   */
  lemma {:induction false} ClassRangesEdges(input: seq<byte>, pos: nat, arena: seq<State>, entry: nat, exit: nat)
    requires Valid(arena) && entry < |arena| && exit < |arena|
    requires ClassRanges(input, pos, arena, entry, exit).Ok?
    ensures ClassEdges(input, pos, exit).Some?
    ensures ClassRanges(input, pos, arena, entry, exit).value.arena
              == arena[entry := arena[entry].(chars := arena[entry].chars + ClassEdges(input, pos, exit).value)]
    decreases Remaining(input, pos)
  {
    var lo, hi := At(input, pos), At(input, pos + 2);
    var l, h := if hi < lo then hi else lo, if hi < lo then lo else hi;
    var edges := RangeEdges(l, h, exit);
    var a := AddRange(arena, entry, l, h, exit);
    assert At(input, pos + 1) == '-' as byte by {
      ClassStep(input, pos, arena, entry, exit);
    }
    if At(input, pos + 3) == ']' as byte {
      assert ClassRanges(input, pos, arena, entry, exit) == Ok(Built(a, exit, pos + 4)) by {
        ClassStep(input, pos, arena, entry, exit);
      }
      assert ClassEdges(input, pos, exit) == Some(edges);
    } else {
      var r := ClassRanges(input, pos + 3, a, entry, exit);
      assert ClassRanges(input, pos, arena, entry, exit) == r by {
        ClassStep(input, pos, arena, entry, exit);
      }
      ClassRangesEdges(input, pos + 3, a, entry, exit);
      var rest := ClassEdges(input, pos + 3, exit).value;
      assert ClassEdges(input, pos, exit) == Some(edges + rest);
      assert a == arena[entry := arena[entry].(chars := arena[entry].chars + edges)];
      assert r.value.arena == a[entry := a[entry].(chars := a[entry].chars + rest)];
      AddCharsTwice(arena, entry, edges, rest);
    }
  }

  /** A class range without its `-` fails with the class message. */
  lemma ElementRangeWithoutDash(input: seq<byte>, pos: nat, arena: seq<State>, entry: nat)
    requires Valid(arena) && entry < |arena|
    requires At(input, pos) == '[' as byte && At(input, pos + 2) != '-' as byte
    ensures Element(input, pos, arena, entry) == Err(DashRequired)
  {
    ClassStep(input, pos + 1, NewState(arena), entry, |arena|);
  }

  /** Every special byte can be matched literally: `/c` adds the edge on `c` itself. */
  lemma ElementEscapedSpecial(input: seq<byte>, pos: nat, arena: seq<State>, entry: nat)
    requires Valid(arena) && entry < |arena|
    requires At(input, pos) == '/' as byte && At(input, pos + 1) in Escapable
    ensures Element(input, pos, arena, entry).Ok?
    ensures Element(input, pos, arena, entry).value.pos == pos + 2
    ensures AddsCharEdge(arena, Element(input, pos, arena, entry).value.arena, entry, At(input, pos + 1))
  {
    var b := Element(input, pos, arena, entry).value.arena;
    assert b[..|arena|] == arena[entry := arena[entry].(chars := arena[entry].chars + multiset{(At(input, pos + 1), |arena|)})];
  }

  /** A named escape adds the edge on the byte it names: `/n` a newline, `/s` a space, `/z` NUL, and so on. */
  lemma ElementNamedEscape(input: seq<byte>, pos: nat, arena: seq<State>, entry: nat)
    requires Valid(arena) && entry < |arena|
    requires At(input, pos) == '/' as byte && At(input, pos + 1) in NamedEscapes
    ensures Element(input, pos, arena, entry).Ok?
    ensures Element(input, pos, arena, entry).value.pos == pos + 2
    ensures AddsCharEdge(arena, Element(input, pos, arena, entry).value.arena, entry, NamedEscapes[At(input, pos + 1)])
  {
    var c := NamedEscapes[At(input, pos + 1)];
    assert At(input, pos + 1) !in Escapable;
    assert Escape(input, pos + 1).Ok? && Escape(input, pos + 1).value == (c, pos + 2);
    assert Element(input, pos, arena, entry) == Ok(Built(AddChar(NewState(arena), entry, c, |arena|), |arena|, pos + 2));
    var b := Element(input, pos, arena, entry).value.arena;
    assert b[..|arena|] == arena[entry := arena[entry].(chars := arena[entry].chars + multiset{(c, |arena|)})];
  }

  /** Any other escape letter fails with the escape message. */
  lemma ElementInvalidEscape(input: seq<byte>, pos: nat, arena: seq<State>, entry: nat)
    requires Valid(arena) && entry < |arena| && At(input, pos) == '/' as byte
    requires At(input, pos + 1) !in Escapable && At(input, pos + 1) !in NamedEscapes && At(input, pos + 1) != 'x' as byte
    ensures Element(input, pos, arena, entry) == Err(InvalidEscape)
  {
  }

  /** A byte that may not start an element fails with a message naming it. */
  lemma ElementUnexpected(input: seq<byte>, pos: nat, arena: seq<State>, entry: nat)
    requires Valid(arena) && entry < |arena| && IsUnexpected(At(input, pos))
    ensures Element(input, pos, arena, entry) == Err(UnexpectedMessage(At(input, pos)))
  {
  }

  /** Every byte, NUL included, can be matched through a `/x` escape in either case of hex digit. */
  lemma ElementEscapedHex(b: byte, upperHigh: bool, upperLow: bool, rest: seq<byte>, arena: seq<State>, entry: nat)
    requires Valid(arena) && entry < |arena|
    ensures
      var input := ['/' as byte, 'x' as byte, HexDigit(b / 16, upperHigh), HexDigit(b % 16, upperLow)] + rest;
      && Element(input, 0, arena, entry).Ok?
      && Element(input, 0, arena, entry).value.pos == 4
      && AddsCharEdge(arena, Element(input, 0, arena, entry).value.arena, entry, b)
  {
    var input := ['/' as byte, 'x' as byte, HexDigit(b / 16, upperHigh), HexDigit(b % 16, upperLow)] + rest;
    var digits := [HexDigit(b / 16, upperHigh), HexDigit(b % 16, upperLow)];
    HexRoundTrip(b, upperHigh, upperLow);
    assert At(input, 2) == At(digits, 0) && At(input, 3) == At(digits, 1);
    assert HexPair(input, 2) == b;
    var r := Element(input, 0, arena, entry).value.arena;
    assert r[..|arena|] == arena[entry := arena[entry].(chars := arena[entry].chars + multiset{(b, |arena|)})];
  }

  /**
   * The operator slot always consumes the byte after the element. Unless
   * that byte is `{`, it keeps the element's exit, allocates nothing, and
   * adds exactly the epsilon edges of the operator (none for a byte that is
   * not one).
   */
  lemma OperatorSlot(input: seq<byte>, save: nat, working: nat, e: Built)
    requires Valid(e.arena) && working < |e.arena| && e.exit < |e.arena| && At(input, e.pos) != '{' as byte
    ensures Operator(input, save, working, e).Ok?
    ensures
      var o := Operator(input, save, working, e).value;
      && o.pos == e.pos + 1 && o.exit == e.exit
      && SameButEpsilon(e.arena, o.arena)
      && EpsilonEdges(o.arena) == EpsilonEdges(e.arena) + OperatorEpsilon(At(input, e.pos), working, e.exit)
  {
    var op := At(input, e.pos);
    if op == '*' as byte {
      var a := AddEpsilon(e.arena, working, e.exit);
      AddEpsilonEdges(e.arena, working, e.exit);
      AddEpsilonEdges(a, e.exit, working);
    } else if op == '+' as byte {
      AddEpsilonEdges(e.arena, e.exit, working);
    } else if op == '?' as byte {
      AddEpsilonEdges(e.arena, working, e.exit);
    }
  }

  /**
   * A literal followed by a byte that is not an operator: that byte is
   * consumed by the operator slot and never becomes an element, so the
   * chunk goes on two bytes later as if it had never been there.
   */
  lemma ChunkSwallowsByte(input: seq<byte>, pos: nat, arena: seq<State>, working: nat)
    requires Valid(arena) && working < |arena|
    requires IsLiteral(At(input, pos)) && At(input, pos) != '|' as byte && At(input, pos) != 0
    requires !IsOperator(At(input, pos + 1))
    ensures
      var a := AddChar(NewState(arena), working, At(input, pos), |arena|);
      Chunk(input, pos, arena, working) == Chunk(input, pos + 2, a, |arena|)
  {
    var e := Built(AddChar(NewState(arena), working, At(input, pos), |arena|), |arena|, pos + 1);
    assert Element(input, pos, arena, working) == Ok(e);
    var o := Built(e.arena, e.exit, pos + 2);
    assert Operator(input, pos, working, e) == Ok(o);
    ChunkStep(input, pos, arena, working, e, o);
  }

  /** A `)` can never be parsed: the chunk hands it to `parse_element`, which rejects it. */
  lemma ChunkRejectsCloseParen(input: seq<byte>, pos: nat, arena: seq<State>, working: nat)
    requires Valid(arena) && working < |arena| && At(input, pos) == ')' as byte
    ensures Chunk(input, pos, arena, working) == Err(UnexpectedMessage(')' as byte))
  {
  }

  /** The element a literal byte at `pos` yields from `entry`. */
  ghost function LiteralCopy(input: seq<byte>, pos: nat, arena: seq<State>, entry: nat): (b: Built)
    requires Valid(arena) && entry < |arena|
    ensures Grows(arena, b) && b.exit == |arena| && b.pos == pos + 1
  {
    Built(AddChar(NewState(arena), entry, At(input, pos), |arena|), |arena|, pos + 1)
  }

  /**
   * `c{n...`, for a literal `c`, reaches the re-parse loop: the chunk is
   * what `Braces` makes of the element's copy, re-parsed from `c` itself.
   */
  lemma BracesAfterLiteral(input: seq<byte>, save: nat, arena: seq<State>, working: nat)
    requires Valid(arena) && working < |arena|
    requires IsLiteral(At(input, save)) && At(input, save) != '|' as byte && At(input, save) != 0
    requires At(input, save + 1) == '{' as byte
    ensures
      var e := LiteralCopy(input, save, arena, working);
      var o := Braces(input, save, save + 2, e.arena, working, e.exit);
      && (o.Err? ==> Chunk(input, save, arena, working) == Err(o.message))
      && (o.Ok? ==> Chunk(input, save, arena, working) == Chunk(input, o.value.pos, o.value.arena, o.value.exit))
  {
    var e := LiteralCopy(input, save, arena, working);
    ElementLiteral(input, save, arena, working);
    assert Element(input, save, arena, working) == Ok(e);
    var o := Operator(input, save, working, e);
    assert o == Braces(input, save, save + 2, e.arena, working, e.exit);
    if o.Ok? {
      ChunkStep(input, save, arena, working, e, o.value);
    }
  }

  /** Two parses of one element agree on success, on the cursor after it and on the message. */
  ghost predicate SameCursor(r1: Result<Built>, r2: Result<Built>)
  {
    && r1.Ok? == r2.Ok?
    && (r1.Ok? ==> r1.value.pos == r2.value.pos)
    && (r1.Err? ==> r1.message == r2.message)
  }

  /**
   * Where the class loop stops and whether it fails depend only on the
   * text, not on the arena or the states it is given.
   */
  lemma {:induction false} ClassRangesCursor(
    input: seq<byte>, pos: nat, a1: seq<State>, entry1: nat, exit1: nat, a2: seq<State>, entry2: nat, exit2: nat)
    requires Valid(a1) && entry1 < |a1| && exit1 < |a1|
    requires Valid(a2) && entry2 < |a2| && exit2 < |a2|
    ensures SameCursor(ClassRanges(input, pos, a1, entry1, exit1), ClassRanges(input, pos, a2, entry2, exit2))
    decreases Remaining(input, pos)
  {
    ClassStep(input, pos, a1, entry1, exit1);
    ClassStep(input, pos, a2, entry2, exit2);
    var lo, hi := At(input, pos), At(input, pos + 2);
    if At(input, pos + 1) == '-' as byte && At(input, pos + 3) != ']' as byte {
      var b1 := if hi < lo then AddRange(a1, entry1, hi, lo, exit1) else AddRange(a1, entry1, lo, hi, exit1);
      var b2 := if hi < lo then AddRange(a2, entry2, hi, lo, exit2) else AddRange(a2, entry2, lo, hi, exit2);
      ClassRangesCursor(input, pos + 3, b1, entry1, exit1, b2, entry2, exit2);
    }
  }

  /**
   * Every element but a group succeeds or fails, and leaves the cursor,
   * the same way whatever arena and entry state it is parsed into: so
   * each re-parse from `save_ptr` moves it exactly as the first parse did.
   */
  lemma ElementCursor(input: seq<byte>, pos: nat, a1: seq<State>, entry1: nat, a2: seq<State>, entry2: nat)
    requires Valid(a1) && entry1 < |a1| && Valid(a2) && entry2 < |a2| && At(input, pos) != '(' as byte
    ensures SameCursor(Element(input, pos, a1, entry1), Element(input, pos, a2, entry2))
  {
    var ch := At(input, pos);
    if ch == '[' as byte {
      ElementCursorClass(input, pos, a1, entry1, a2, entry2);
    } else if ch == '/' as byte {
      ElementCursorEscape(input, pos, a1, entry1, a2, entry2);
    } else {
      ElementCursorByte(input, pos, a1, entry1, a2, entry2);
    }
  }

  lemma ElementCursorClass(input: seq<byte>, pos: nat, a1: seq<State>, entry1: nat, a2: seq<State>, entry2: nat)
    requires Valid(a1) && entry1 < |a1| && Valid(a2) && entry2 < |a2| && At(input, pos) == '[' as byte
    ensures SameCursor(Element(input, pos, a1, entry1), Element(input, pos, a2, entry2))
  {
    assert Element(input, pos, a1, entry1) == ClassRanges(input, pos + 1, NewState(a1), entry1, |a1|);
    assert Element(input, pos, a2, entry2) == ClassRanges(input, pos + 1, NewState(a2), entry2, |a2|);
    ClassRangesCursor(input, pos + 1, NewState(a1), entry1, |a1|, NewState(a2), entry2, |a2|);
  }

  lemma ElementCursorEscape(input: seq<byte>, pos: nat, a1: seq<State>, entry1: nat, a2: seq<State>, entry2: nat)
    requires Valid(a1) && entry1 < |a1| && Valid(a2) && entry2 < |a2| && At(input, pos) == '/' as byte
    ensures SameCursor(Element(input, pos, a1, entry1), Element(input, pos, a2, entry2))
  {
  }

  lemma ElementCursorByte(input: seq<byte>, pos: nat, a1: seq<State>, entry1: nat, a2: seq<State>, entry2: nat)
    requires Valid(a1) && entry1 < |a1| && Valid(a2) && entry2 < |a2|
    requires At(input, pos) != '(' as byte && At(input, pos) != '[' as byte && At(input, pos) != '/' as byte
    ensures SameCursor(Element(input, pos, a1, entry1), Element(input, pos, a2, entry2))
  {
  }

  /**
   * Because `parse_element` advances `save_ptr`, the second re-parse of
   * any element but a group starts at the `{` itself: a minimum of 2 or
   * more fails with "unexpected character '{'".
   */
  lemma BracesSecondCopyFails(input: seq<byte>, save: nat, arena: seq<State>, working: nat, e: Built, min: nat, afterMin: nat)
    requires Valid(arena) && working < |arena|
    requires At(input, save) != '(' as byte && At(input, save) != '|' as byte && At(input, save) != 0
    requires Element(input, save, arena, working) == Ok(e) && At(input, e.pos) == '{' as byte
    requires LexNumberSpec(input, e.pos + 1) == Ok((min, afterMin)) && 2 <= min
    ensures Chunk(input, save, arena, working) == Err(UnexpectedMessage('{' as byte))
  {
    ReparseAtBrace(input, save, arena, working, e, min);
    OperatorRepeatFails(input, save, working, e, min, afterMin);
    ChunkOperatorFails(input, save, arena, working, e);
  }

  /** A `{` whose re-parse loop fails makes the operator slot fail with that message. */
  lemma OperatorRepeatFails(input: seq<byte>, save: nat, working: nat, e: Built, min: nat, afterMin: nat)
    requires Valid(e.arena) && working < |e.arena| && e.exit < |e.arena| && At(input, e.pos) == '{' as byte
    requires LexNumberSpec(input, e.pos + 1) == Ok((min, afterMin))
    requires Repeat(input, save, min, e.arena, working, e.exit).Err?
    ensures Operator(input, save, working, e) == Err(Repeat(input, save, min, e.arena, working, e.exit).message)
  {
  }

  /** A failing operator slot ends the chunk with its message. */
  lemma ChunkOperatorFails(input: seq<byte>, pos: nat, arena: seq<State>, working: nat, e: Built)
    requires Valid(arena) && working < |arena| && At(input, pos) != '|' as byte && At(input, pos) != 0
    requires Element(input, pos, arena, working) == Ok(e) && Operator(input, pos, working, e).Err?
    ensures Chunk(input, pos, arena, working) == Err(Operator(input, pos, working, e).message)
  {
  }

  /** The re-parse loop of `{min}` with min >= 2 fails on its second round, at the `{`. */
  lemma ReparseAtBrace(input: seq<byte>, save: nat, arena: seq<State>, working: nat, e: Built, min: nat)
    requires Valid(arena) && working < |arena| && At(input, save) != '(' as byte
    requires Element(input, save, arena, working) == Ok(e) && At(input, e.pos) == '{' as byte && 2 <= min
    ensures Repeat(input, save, min, e.arena, working, e.exit) == Err(UnexpectedMessage('{' as byte))
  {
    RepeatStep(input, save, min, e.arena, working, e.exit);
    ElementCursor(input, save, arena, working, e.arena, e.exit);
    var e2 := Element(input, save, e.arena, e.exit).value;
    RepeatStep(input, e.pos, min - 1, e2.arena, e.exit, e2.exit);
    ElementUnexpected(input, e.pos, e2.arena, e2.exit);
  }

  /**
   * The `{min-max}` loop re-parses from `save_ptr` as well, so with a
   * maximum above the minimum and of 2 or more, some round of it starts at
   * the `{` and fails: for any element but a group, with minimum 0 on the
   * second optional round, with minimum 1 on the first one, and with a
   * larger minimum already in the `{min}` loop.
   */
  lemma OptionalSecondCopyFails(input: seq<byte>, save: nat, arena: seq<State>, working: nat, e: Built, min: nat, afterMin: nat, max: nat, afterMax: nat)
    requires Valid(arena) && working < |arena|
    requires At(input, save) != '(' as byte && At(input, save) != '|' as byte && At(input, save) != 0
    requires Element(input, save, arena, working) == Ok(e) && At(input, e.pos) == '{' as byte
    requires LexNumberSpec(input, e.pos + 1) == Ok((min, afterMin)) && At(input, afterMin) == '-' as byte
    requires LexNumberSpec(input, afterMin + 1) == Ok((max, afterMax)) && min < max && 2 <= max
    ensures Chunk(input, save, arena, working) == Err(UnexpectedMessage('{' as byte))
  {
    if 2 <= min {
      BracesSecondCopyFails(input, save, arena, working, e, min, afterMin);
    } else {
      var c := if min == 0 then OptionalFromElement(input, save, arena, working, e, max)
               else OptionalFromBrace(input, save, arena, working, e, max);
      BracesMinusFails(input, afterMin, min, c, max, afterMax);
      OperatorSwitchFails(input, save, working, e, min, afterMin, c, UnexpectedMessage('{' as byte));
      ChunkOperatorFails(input, save, arena, working, e);
    }
  }

  /**
   * The operator slot after an element that ends at `{`: once the `{min}`
   * loop has left the copies `c`, it fails as the switch after the number
   * does.
   */
  lemma OperatorSwitchFails(input: seq<byte>, save: nat, working: nat, e: Built, min: nat, afterMin: nat, c: Copies, m: string)
    requires Valid(e.arena) && working < |e.arena| && e.exit < |e.arena| && At(input, e.pos) == '{' as byte
    requires LexNumberSpec(input, e.pos + 1) == Ok((min, afterMin))
    requires Repeat(input, save, min, e.arena, working, e.exit) == Ok(c) && GrowsCopies(c.arena, c)
    requires BracesKind(input, afterMin, min, c) == Err(m)
    ensures Operator(input, save, working, e) == Err(m)
  {
    BracesAfterCopies(input, save, e.pos + 1, e.arena, working, e.exit, min, afterMin, c);
    OperatorBracesFails(input, save, working, e, m);
  }

  /**
   * `{0-max}`: the `{min}` loop leaves `save_ptr` at the element, and the
   * optional loop's second round, for a maximum of 2 or more, starts at `{`.
   */
  ghost function OptionalFromElement(input: seq<byte>, save: nat, arena: seq<State>, working: nat, e: Built, max: nat): (c: Copies)
    requires Valid(arena) && working < |arena| && At(input, save) != '(' as byte
    requires Element(input, save, arena, working) == Ok(e) && At(input, e.pos) == '{' as byte && 2 <= max
    ensures Repeat(input, save, 0, e.arena, working, e.exit) == Ok(c) && GrowsCopies(c.arena, c)
    ensures RepeatOptional(input, c.save, max, NewState(c.arena), c.working, c.next, |c.arena|) == Err(UnexpectedMessage('{' as byte))
  {
    var c := Copies(e.arena, working, e.exit, save);
    OptionalSecondReparseFails(input, save, max, NewState(c.arena), c.working, c.next, |c.arena|, arena, working, e);
    c
  }

  /**
   * `{1-max}`: the `{min}` loop's one round leaves `save_ptr` at the `{`,
   * where the optional loop's first round fails.
   */
  ghost function OptionalFromBrace(input: seq<byte>, save: nat, arena: seq<State>, working: nat, e: Built, max: nat): (c: Copies)
    requires Valid(arena) && working < |arena| && At(input, save) != '(' as byte
    requires Element(input, save, arena, working) == Ok(e) && At(input, e.pos) == '{' as byte && 1 <= max
    ensures Repeat(input, save, 1, e.arena, working, e.exit) == Ok(c) && GrowsCopies(c.arena, c) && c.save == e.pos
    ensures RepeatOptional(input, c.save, max, NewState(c.arena), c.working, c.next, |c.arena|) == Err(UnexpectedMessage('{' as byte))
  {
    RepeatStep(input, save, 1, e.arena, working, e.exit);
    ElementCursor(input, save, arena, working, e.arena, e.exit);
    var e2 := Element(input, save, e.arena, e.exit).value;
    var c := Copies(e2.arena, e.exit, e2.exit, e.pos);
    OptionalReparseAtBrace(input, e.pos, max, NewState(c.arena), c.working, c.next, |c.arena|);
    c
  }

  /** An optional round that starts at `{` fails there. */
  lemma OptionalReparseAtBrace(input: seq<byte>, pos: nat, n: nat, arena: seq<State>, working: nat, next: nat, end: nat)
    requires Valid(arena) && working < |arena| && next < |arena| && end < |arena|
    requires At(input, pos) == '{' as byte && 1 <= n
    ensures RepeatOptional(input, pos, n, arena, working, next, end) == Err(UnexpectedMessage('{' as byte))
  {
    RepeatOptionalStep(input, pos, n, arena, working, next, end);
    ElementUnexpected(input, pos, AddEpsilon(arena, next, end), next);
  }

  /**
   * Two or more optional rounds from an element that ends at `{`: the first
   * round ends where the element did, and the second fails at the `{`.
   */
  lemma OptionalSecondReparseFails(input: seq<byte>, save: nat, n: nat, arena: seq<State>, working: nat, next: nat, end: nat, a0: seq<State>, entry0: nat, e: Built)
    requires Valid(arena) && working < |arena| && next < |arena| && end < |arena|
    requires Valid(a0) && entry0 < |a0| && At(input, save) != '(' as byte
    requires Element(input, save, a0, entry0) == Ok(e) && At(input, e.pos) == '{' as byte && 2 <= n
    ensures RepeatOptional(input, save, n, arena, working, next, end) == Err(UnexpectedMessage('{' as byte))
  {
    RepeatOptionalStep(input, save, n, arena, working, next, end);
    var a := AddEpsilon(arena, next, end);
    ElementCursor(input, save, a0, entry0, a, next);
    var e2 := Element(input, save, a, next).value;
    OptionalReparseAtBrace(input, e.pos, n - 1, e2.arena, next, e2.exit, end);
  }

  /** A `-` form with max above min whose optional loop fails fails the switch with that message. */
  lemma BracesMinusFails(input: seq<byte>, str: nat, min: nat, c: Copies, max: nat, afterMax: nat)
    requires GrowsCopies(c.arena, c) && At(input, str) == '-' as byte
    requires LexNumberSpec(input, str + 1) == Ok((max, afterMax)) && min < max
    requires RepeatOptional(input, c.save, max, NewState(c.arena), c.working, c.next, |c.arena|).Err?
    ensures BracesKind(input, str, min, c)
      == Err(RepeatOptional(input, c.save, max, NewState(c.arena), c.working, c.next, |c.arena|).message)
  {
    assert BracesMax(input, str + 1, min, c) == OptionalCopies(input, c, max, afterMax);
  }

  /** Once the `{min}` loop has left the copies `c`, the switch after the number decides. */
  lemma BracesAfterCopies(input: seq<byte>, save: nat, str: nat, arena: seq<State>, working: nat, next: nat, min: nat, afterMin: nat, c: Copies)
    requires Valid(arena) && working < |arena| && next < |arena|
    requires LexNumberSpec(input, str) == Ok((min, afterMin)) && Repeat(input, save, min, arena, working, next) == Ok(c)
    ensures Braces(input, save, str, arena, working, next) == BracesKind(input, afterMin, min, c)
  {
  }

  /** A `{` whose expression fails makes the operator slot fail with that message. */
  lemma OperatorBracesFails(input: seq<byte>, save: nat, working: nat, e: Built, m: string)
    requires Valid(e.arena) && working < |e.arena| && e.exit < |e.arena| && At(input, e.pos) == '{' as byte
    requires Braces(input, save, e.pos + 1, e.arena, working, e.exit) == Err(m)
    ensures Operator(input, save, working, e) == Err(m)
  {
  }

  /**
   * The copies `c{n` leaves, for a literal `c` and n of 0 or 1: the element
   * itself, then for n = 1 one more copy re-parsed from `c` and chained from
   * the first one's exit; `save_ptr` has moved past each re-parsed copy.
   */
  ghost function LiteralCopies(input: seq<byte>, save: nat, arena: seq<State>, working: nat, n: nat): (c: Copies)
    requires Valid(arena) && working < |arena| && n <= 1
    ensures GrowsCopies(LiteralCopy(input, save, arena, working).arena, c)
    ensures |c.arena| == |arena| + 1 + n && c.next == |c.arena| - 1 && c.save == save + n
    ensures c.working == if n == 0 then working else |arena|
  {
    var e := LiteralCopy(input, save, arena, working);
    if n == 0 then Copies(e.arena, working, e.exit, save)
    else
      var e2 := LiteralCopy(input, save, e.arena, e.exit);
      Copies(e2.arena, e.exit, e2.exit, save + 1)
  }

  /**
   * `c{n...` with a minimum of 0 or 1: the re-parse loop leaves the copies
   * of `LiteralCopies`, and the switch after the number decides the rest.
   * `afterMin` is one past the byte that ended the number.
   */
  lemma LiteralBraces(input: seq<byte>, save: nat, arena: seq<State>, working: nat, min: nat, afterMin: nat)
    requires Valid(arena) && working < |arena|
    requires IsLiteral(At(input, save)) && At(input, save) != '|' as byte && At(input, save) != 0
    requires LexNumberSpec(input, save + 2) == Ok((min, afterMin)) && min <= 1
    ensures
      var e := LiteralCopy(input, save, arena, working);
      Braces(input, save, save + 2, e.arena, working, e.exit)
        == BracesKind(input, afterMin, min, LiteralCopies(input, save, arena, working, min))
  {
    var e := LiteralCopy(input, save, arena, working);
    var copies := LiteralCopies(input, save, arena, working, min);
    if min == 1 {
      RepeatStep(input, save, min, e.arena, working, e.exit);
      ElementLiteral(input, save, e.arena, e.exit);
      assert Element(input, save, e.arena, e.exit) == Ok(LiteralCopy(input, save, e.arena, e.exit));
    }
    assert Repeat(input, save, min, e.arena, working, e.exit) == Ok(copies);
  }

  /**
   * With a minimum of 0 or 1 the re-parse succeeds, and the byte after the
   * number's terminator decides: `{1}` alone ends at that terminator's
   * successor, so the next byte must itself be `}`, `+` or `-`.
   */
  lemma BracesKindAfterTerminator(input: seq<byte>, save: nat, arena: seq<State>, working: nat, min: nat, afterMin: nat)
    requires Valid(arena) && working < |arena|
    requires IsLiteral(At(input, save)) && At(input, save) != '|' as byte && At(input, save) != 0
    requires LexNumberSpec(input, save + 2) == Ok((min, afterMin)) && min <= 1
    requires At(input, afterMin) != '}' as byte && At(input, afterMin) != '+' as byte && At(input, afterMin) != '-' as byte
    ensures
      var e := LiteralCopy(input, save, arena, working);
      Braces(input, save, save + 2, e.arena, working, e.exit) == Err(UnexpectedInBraces)
  {
    LiteralBraces(input, save, arena, working, min, afterMin);
  }

  /**
   * `c{n}}` with n of 0 or 1 stands for the n + 1 chained copies of
   * `LiteralCopies`: the chunk goes on after the second `}` from the exit
   * of the last copy.
   */
  lemma BracesCopies(input: seq<byte>, save: nat, arena: seq<State>, working: nat, min: nat, afterMin: nat)
    requires Valid(arena) && working < |arena|
    requires IsLiteral(At(input, save)) && At(input, save) != '|' as byte && At(input, save) != 0
    requires LexNumberSpec(input, save + 2) == Ok((min, afterMin)) && min <= 1
    requires At(input, afterMin) == '}' as byte
    ensures
      var e := LiteralCopy(input, save, arena, working);
      var c := LiteralCopies(input, save, arena, working, min);
      Braces(input, save, save + 2, e.arena, working, e.exit) == Ok(Built(c.arena, c.next, afterMin + 1))
  {
    LiteralBraces(input, save, arena, working, min, afterMin);
  }

  /**
   * `c{n?+}` with n of 0 or 1 (`?` the byte the number consumes): the last
   * copy gets an edge back to its own entry, and the `+` must be followed by
   * `}`.
   */
  lemma BracesPlus(input: seq<byte>, save: nat, arena: seq<State>, working: nat, min: nat, afterMin: nat)
    requires Valid(arena) && working < |arena|
    requires IsLiteral(At(input, save)) && At(input, save) != '|' as byte && At(input, save) != 0
    requires LexNumberSpec(input, save + 2) == Ok((min, afterMin)) && min <= 1
    requires At(input, afterMin) == '+' as byte
    ensures
      var e := LiteralCopy(input, save, arena, working);
      var c := LiteralCopies(input, save, arena, working, min);
      var o := Braces(input, save, save + 2, e.arena, working, e.exit);
      && (At(input, afterMin + 1) != '}' as byte ==> o == Err(ExpectedCloseBrace))
      && (At(input, afterMin + 1) == '}' as byte ==> o == Ok(Built(AddEpsilon(c.arena, c.next, c.working), c.next, afterMin + 2)))
  {
    LiteralBraces(input, save, arena, working, min, afterMin);
  }

  /**
   * `c{n?-n?...` with both numbers equal (0 or 1): the copies stand as they
   * are and the chunk goes on right after the maximum's terminator; no `}`
   * is looked for.
   */
  lemma BracesMaxEqualsMin(input: seq<byte>, save: nat, arena: seq<State>, working: nat, min: nat, afterMin: nat, afterMax: nat)
    requires Valid(arena) && working < |arena|
    requires IsLiteral(At(input, save)) && At(input, save) != '|' as byte && At(input, save) != 0
    requires LexNumberSpec(input, save + 2) == Ok((min, afterMin)) && min <= 1
    requires At(input, afterMin) == '-' as byte
    requires LexNumberSpec(input, afterMin + 1) == Ok((min, afterMax))
    ensures
      var e := LiteralCopy(input, save, arena, working);
      var c := LiteralCopies(input, save, arena, working, min);
      Braces(input, save, save + 2, e.arena, working, e.exit) == Ok(Built(c.arena, c.next, afterMax))
  {
    LiteralBraces(input, save, arena, working, min, afterMin);
  }

  /**
   * `c{0?-1?}`: after the first `c`, a fresh end state; the edge from the
   * first copy's exit into it, one optional copy of `c`, and the edge from
   * that copy's exit into it. The chunk goes on from the end state.
   */
  lemma BracesOptionalCopy(input: seq<byte>, save: nat, arena: seq<State>, working: nat, afterMin: nat, afterMax: nat)
    requires Valid(arena) && working < |arena|
    requires IsLiteral(At(input, save)) && At(input, save) != '|' as byte && At(input, save) != 0
    requires LexNumberSpec(input, save + 2) == Ok((0, afterMin))
    requires At(input, afterMin) == '-' as byte
    requires LexNumberSpec(input, afterMin + 1) == Ok((1, afterMax))
    ensures
      var e := LiteralCopy(input, save, arena, working);
      var end := |e.arena|;
      var a := AddEpsilon(NewState(e.arena), e.exit, end);
      var e2 := LiteralCopy(input, save, a, e.exit);
      var o := Braces(input, save, save + 2, e.arena, working, e.exit);
      && (At(input, afterMax) == '}' as byte ==> o == Ok(Built(AddEpsilon(e2.arena, e2.exit, end), end, afterMax + 1)))
      && (At(input, afterMax) != '}' as byte ==> o == Err(ExpectedCloseBrace))
  {
    LiteralBraces(input, save, arena, working, 0, afterMin);
    var e := LiteralCopy(input, save, arena, working);
    var copies := LiteralCopies(input, save, arena, working, 0);
    assert copies == Copies(e.arena, working, e.exit, save);
    OptionalLiteralTail(input, afterMin, copies, afterMax);
  }

  /**
   * The `-` tail `-1?}` after the copies `c`, when `save_ptr` is at a
   * literal: an end state, the skip edge into it, one more copy, and the
   * last exit joined to it.
   */
  lemma OptionalLiteralTail(input: seq<byte>, after: nat, c: Copies, next: nat)
    requires GrowsCopies(c.arena, c) && IsLiteral(At(input, c.save))
    requires At(input, after) == '-' as byte
    requires LexNumberSpec(input, after + 1) == Ok((1, next))
    ensures
      var end := |c.arena|;
      var e2 := LiteralCopy(input, c.save, AddEpsilon(NewState(c.arena), c.next, end), c.next);
      && (At(input, next) == '}' as byte ==> BracesKind(input, after, 0, c) == Ok(Built(AddEpsilon(e2.arena, e2.exit, end), end, next + 1)))
      && (At(input, next) != '}' as byte ==> BracesKind(input, after, 0, c) == Err(ExpectedCloseBrace))
  {
    var end := |c.arena|;
    var e2 := LiteralCopy(input, c.save, AddEpsilon(NewState(c.arena), c.next, end), c.next);
    LiteralOptionalCopy(input, c.save, NewState(c.arena), c.working, c.next, end);
    if At(input, next) == '}' as byte {
      assert OptionalCopies(input, c, 1, next) == Ok(Built(AddEpsilon(e2.arena, e2.exit, end), end, next + 1));
    } else {
      assert OptionalCopies(input, c, 1, next) == Err(ExpectedCloseBrace);
    }
    assert BracesMax(input, after + 1, 0, c) == OptionalCopies(input, c, 1, next);
  }

  /** One optional copy of a literal: the skip edge into `end`, then the copy chained from `next`. */
  lemma LiteralOptionalCopy(input: seq<byte>, save: nat, arena: seq<State>, working: nat, next: nat, end: nat)
    requires Valid(arena) && working < |arena| && next < |arena| && end < |arena|
    requires IsLiteral(At(input, save))
    ensures
      var e := LiteralCopy(input, save, AddEpsilon(arena, next, end), next);
      RepeatOptional(input, save, 1, arena, working, next, end) == Ok(Copies(e.arena, next, e.exit, save + 1))
  {
    var a := AddEpsilon(arena, next, end);
    RepeatOptionalStep(input, save, 1, arena, working, next, end);
    ElementLiteral(input, save, a, next);
    assert Element(input, save, a, next) == Ok(LiteralCopy(input, save, a, next));
  }

  /**
   * `max < min` can only be seen with a minimum of 1 and a maximum of 0:
   * then `c{1x-0y` fails with the max-below-min message.
   */
  lemma BracesMaxBelowMin(input: seq<byte>, save: nat, arena: seq<State>, working: nat, afterMin: nat, afterMax: nat)
    requires Valid(arena) && working < |arena|
    requires IsLiteral(At(input, save)) && At(input, save) != '|' as byte && At(input, save) != 0
    requires LexNumberSpec(input, save + 2) == Ok((1, afterMin))
    requires At(input, afterMin) == '-' as byte
    requires LexNumberSpec(input, afterMin + 1) == Ok((0, afterMax))
    ensures
      var e := LiteralCopy(input, save, arena, working);
      Braces(input, save, save + 2, e.arena, working, e.exit) == Err(MaxBelowMin)
  {
    LiteralBraces(input, save, arena, working, 1, afterMin);
  }
}
