/**
 * What the recursive descent of dfa.cpp computes, as pure functions. Each
 * construct receives its entry state and the cursor and yields the grown
 * arena, its exit state and the cursor after it, or the message of the
 * `Regex_Exception` it throws. The functions follow the code as written, not
 * the grammar comment above it: the operator slot after an element always
 * consumes one byte, a chunk ends only at `|` or NUL, `lex_number` consumes
 * the byte after the digits, and a `{...}` re-parse advances `save_ptr`.
 *
 * Termination: every call either moves the cursor past a byte that is not
 * the terminator, or keeps it and goes down in the order
 * Regex > Alternatives > Chunk > Braces > Repeat(Optional) > Element.
 */
module NfaSpec {
  import opened Cursor
  import opened Outcome
  import opened Arena
  import opened Lex

  /** What a construct yields: the arena, its exit state and the cursor after it. */
  datatype Built = Built(arena: seq<State>, exit: nat, pos: nat)

  /** The locals of a `{...}` loop: arena, `working_state`, `next_state`, `save_ptr`. */
  datatype Copies = Copies(arena: seq<State>, working: nat, next: nat, save: nat)

  const ExpectedCloseParen: string := "expected ')' to close '('"
  const DashRequired: string := "'-' required in character range"
  const InvalidEscape: string := "invalid escape sequence"
  const ExpectedCloseBrace: string := "expected } to close {"
  const MaxBelowMin: string := "max is less than min in {} expression"
  const UnexpectedInBraces: string := "unexpected character in {} expression"

  /** The bytes that may not start an element. */
  predicate IsUnexpected(c: byte)
  {
    c in {']' as byte, ')' as byte, '*' as byte, '+' as byte, '?' as byte, '{' as byte, '}' as byte, '-' as byte}
  }

  function UnexpectedMessage(c: byte): (r: string)
  {
    "unexpected character '" + [c as char] + "'"
  }

  /** The 13 special bytes that an escape yields unchanged. */
  const Escapable: set<byte> := {
    '.' as byte, '*' as byte, '+' as byte, '?' as byte, '|' as byte, '[' as byte, ']' as byte,
    '(' as byte, ')' as byte, '{' as byte, '}' as byte, '-' as byte, '/' as byte}

  /** The escape letters that name a control byte, a space or NUL. */
  const NamedEscapes: map<byte, byte> := map[
    'n' as byte := 0x0A, 'r' as byte := 0x0D, 't' as byte := 0x09, 'v' as byte := 0x0B,
    'f' as byte := 0x0C, 'b' as byte := 0x08, 'a' as byte := 0x07, 's' as byte := 0x20,
    'z' as byte := 0x00]

  ghost predicate Grows(arena: seq<State>, b: Built)
  {
    Valid(b.arena) && Extends(arena, b.arena) && b.exit < |b.arena|
  }

  ghost predicate GrowsCopies(arena: seq<State>, c: Copies)
  {
    Valid(c.arena) && Extends(arena, c.arena) && c.working < |c.arena| && c.next < |c.arena|
  }

  /** The escape whose letter is at `pos` (just after `/`): its byte and the cursor after it. */
  ghost function Escape(input: seq<byte>, pos: nat): (r: Result<(byte, nat)>)
    ensures r.Err? <==> At(input, pos) !in Escapable && At(input, pos) !in NamedEscapes && At(input, pos) != 'x' as byte
    ensures r.Err? ==> r.message == InvalidEscape
    ensures r.Ok? ==> r.value.1 == if At(input, pos) == 'x' as byte then pos + 3 else pos + 1
  {
    var c := At(input, pos);
    if c in Escapable then Ok((c, pos + 1))
    else if c in NamedEscapes then Ok((NamedEscapes[c], pos + 1))
    else if c == 'x' as byte then Ok((HexPair(input, pos + 1), pos + 3))
    else Err(InvalidEscape)
  }

  /**
   * The `do ... while(*str != ']')` loop of a class, from the byte after `[`
   * or after the previous range: each `lo-hi` range (swapped when hi < lo)
   * adds one character edge per byte from `entry` to `exit`.
   */
  ghost function ClassRanges(input: seq<byte>, pos: nat, arena: seq<State>, entry: nat, exit: nat): (r: Result<Built>)
    requires Valid(arena) && entry < |arena| && exit < |arena|
    ensures r.Ok? ==> Valid(r.value.arena) && r.value.exit == exit && pos < r.value.pos
    ensures r.Ok? ==> EdgesAddedFrom(arena, r.value.arena, entry, exit) && r.value.arena[entry].omega == arena[entry].omega
    decreases Remaining(input, pos)
  {
    var lo := At(input, pos);
    if At(input, pos + 1) != '-' as byte then Err(DashRequired)
    else
      var hi := At(input, pos + 2);
      var a := if hi < lo then AddRange(arena, entry, hi, lo, exit) else AddRange(arena, entry, lo, hi, exit);
      assert EdgesAddedFrom(arena, a, entry, exit) by {
        if hi < lo { AddRangeFrom(arena, entry, hi, lo, exit); } else { AddRangeFrom(arena, entry, lo, hi, exit); }
      }
      if At(input, pos + 3) != ']' as byte then
        var r := ClassRanges(input, pos + 3, a, entry, exit);
        if r.Ok? then EdgesAddedFromTrans(arena, a, r.value.arena, entry, exit); r else r
      else Ok(Built(a, exit, pos + 4))
  }

  /**
   * `parse_element`: a group, `.`, a class, an escape or a literal byte.
   * Everything but a group appends exactly one state and only adds edges
   * from `entry` into it; a group never succeeds on a C string.
   */
  ghost function Element(input: seq<byte>, pos: nat, arena: seq<State>, entry: nat): (r: Result<Built>)
    requires Valid(arena) && entry < |arena|
    ensures r.Ok? ==> Grows(arena, r.value) && pos < r.value.pos
    ensures NoNul(input) && At(input, pos) == '(' as byte ==> r.Err?
    decreases Remaining(input, pos), 0, 0
  {
    var ch := At(input, pos);
    if ch == '(' as byte then
      match Regex(input, pos + 1, arena, entry)
      case Err(m) => Err(m)
      case Ok(g) =>
        if At(input, g.pos) != ')' as byte then Err(ExpectedCloseParen)
        else Ok(Built(g.arena, g.exit, g.pos + 1))
    else
      var out := |arena|;
      var a := NewState(arena);
      if ch == '.' as byte then Ok(Built(AddOmega(a, entry, out), out, pos + 1))
      else if ch == '[' as byte then
        var r := ClassRanges(input, pos + 1, a, entry, out);
        if r.Ok? then EdgesAddedFromExtends(a, r.value.arena, entry, out); r else r
      else if ch == '/' as byte then
        match Escape(input, pos + 1)
        case Err(m) => Err(m)
        case Ok((c, next)) => Ok(Built(AddChar(a, entry, c, out), out, next))
      else if IsUnexpected(ch) then Err(UnexpectedMessage(ch))
      else Ok(Built(AddChar(a, entry, ch, out), out, pos + 1))
  }

  /**
   * `parse_chunk`: elements in sequence, each followed by the operator slot.
   * Returns only in front of `|` or NUL.
   */
  ghost function Chunk(input: seq<byte>, pos: nat, arena: seq<State>, working: nat): (r: Result<Built>)
    requires Valid(arena) && working < |arena|
    ensures r.Ok? ==> Grows(arena, r.value) && pos <= r.value.pos
    ensures r.Ok? ==> At(input, r.value.pos) == '|' as byte || At(input, r.value.pos) == 0
    decreases Remaining(input, pos), 5, 0
  {
    var ch := At(input, pos);
    if ch == '|' as byte || ch == 0 then Ok(Built(arena, working, pos))
    else
      match Element(input, pos, arena, working)
      case Err(m) => Err(m)
      case Ok(e) =>
        match Operator(input, pos, working, e)
        case Err(m) => Err(m)
        case Ok(o) =>
          ExtendsTrans(arena, e.arena, o.arena);
          var r := Chunk(input, o.pos, o.arena, o.exit);
          if r.Ok? then ExtendsTrans(arena, o.arena, r.value.arena); r else r
  }

  /**
   * The operator slot after an element that began at `save`, ran from
   * `working` to `e.exit` and left the cursor at `e.pos`: one byte is always
   * consumed. `*` adds the skip and the loop-back edge, `+` only the
   * loop-back, `?` only the skip, `{` a bounded repetition, and any other
   * byte nothing.
   */
  ghost function Operator(input: seq<byte>, save: nat, working: nat, e: Built): (r: Result<Built>)
    requires Valid(e.arena) && working < |e.arena| && e.exit < |e.arena|
    ensures r.Ok? ==> Grows(e.arena, r.value) && e.pos < r.value.pos
    decreases Remaining(input, save), 4, 0
  {
    var op := At(input, e.pos);
    var p := e.pos + 1;
    if op == '*' as byte then
      var a := AddEpsilon(AddEpsilon(e.arena, working, e.exit), e.exit, working);
      Ok(Built(a, e.exit, p))
    else if op == '+' as byte then Ok(Built(AddEpsilon(e.arena, e.exit, working), e.exit, p))
    else if op == '?' as byte then Ok(Built(AddEpsilon(e.arena, working, e.exit), e.exit, p))
    else if op == '{' as byte then
      Braces(input, save, p, e.arena, working, e.exit)
    else Ok(Built(e.arena, e.exit, p))
  }

  /**
   * The `{` operator: `str` is just after `{`, `save` is where the element
   * began, `working`/`next` are its entry and exit. `min` more copies of
   * the element are parsed again from `save`, then the byte after the
   * number decides the rest.
   */
  ghost function Braces(input: seq<byte>, save: nat, str: nat, arena: seq<State>, working: nat, next: nat): (r: Result<Built>)
    requires Valid(arena) && working < |arena| && next < |arena|
    ensures r.Ok? ==> Grows(arena, r.value) && str < r.value.pos
    decreases Remaining(input, save), 3, 0
  {
    match LexNumberSpec(input, str)
    case Err(m) => Err(m)
    case Ok((min, afterMin)) =>
      match Repeat(input, save, min, arena, working, next)
      case Err(m) => Err(m)
      case Ok(c) =>
        var r := BracesKind(input, afterMin, min, c);
        if r.Ok? then ExtendsTrans(arena, c.arena, r.value.arena); r else r
  }

  /**
   * The `switch(*str++)` after the minimum: `}` keeps the copies, `+`
   * loops the last copy back, `-` reads a maximum, anything else fails.
   */
  ghost function BracesKind(input: seq<byte>, str: nat, min: nat, c: Copies): (r: Result<Built>)
    requires GrowsCopies(c.arena, c)
    ensures r.Ok? ==> Grows(c.arena, r.value) && str < r.value.pos
    decreases Remaining(input, c.save), 2, 2
  {
    var kind := At(input, str);
    var s := str + 1;
    if kind == '}' as byte then Ok(Built(c.arena, c.next, s))
    else if kind == '+' as byte then
      if At(input, s) != '}' as byte then Err(ExpectedCloseBrace)
      else Ok(Built(AddEpsilon(c.arena, c.next, c.working), c.next, s + 1))
    else if kind == '-' as byte then BracesMax(input, s, min, c)
    else Err(UnexpectedInBraces)
  }

  /**
   * The `-` case: the maximum is read from `str`; below the minimum it
   * fails, equal to it the copies stand as they are (no `}` is looked for),
   * above it the optional copies follow.
   */
  ghost function BracesMax(input: seq<byte>, str: nat, min: nat, c: Copies): (r: Result<Built>)
    requires GrowsCopies(c.arena, c)
    ensures r.Ok? ==> Grows(c.arena, r.value) && str < r.value.pos
    decreases Remaining(input, c.save), 2, 1
  {
    match LexNumberSpec(input, str)
    case Err(m) => Err(m)
    case Ok((max, afterMax)) =>
      if max < min then Err(MaxBelowMin)
      else if max == min then Ok(Built(c.arena, c.next, afterMax))
      else OptionalCopies(input, c, max, afterMax)
  }

  /**
   * The `{min-max}` tail with max > min: a fresh end state, `max` optional
   * copies each skippable into it, the last exit joined to it, then `}`.
   */
  ghost function OptionalCopies(input: seq<byte>, c: Copies, max: nat, afterMax: nat): (r: Result<Built>)
    requires GrowsCopies(c.arena, c)
    ensures r.Ok? ==> Grows(c.arena, r.value) && afterMax < r.value.pos
    decreases Remaining(input, c.save), 2, 0
  {
    var end := |c.arena|;
    var a := NewState(c.arena);
    var o := RepeatOptional(input, c.save, max, a, c.working, c.next, end);
    if o.Err? then Err(o.message)
    else if At(input, afterMax) != '}' as byte then Err(ExpectedCloseBrace)
    else
      var b := AddEpsilon(o.value.arena, o.value.next, end);
      ExtendsTrans(c.arena, a, o.value.arena);
      ExtendsTrans(c.arena, o.value.arena, b);
      Ok(Built(b, end, afterMax + 1))
  }

  /** `n` rounds of `working = next; next = parse_element(save_ptr, working)`. */
  ghost function Repeat(input: seq<byte>, save: nat, n: nat, arena: seq<State>, working: nat, next: nat): (r: Result<Copies>)
    requires Valid(arena) && working < |arena| && next < |arena|
    ensures r.Ok? ==> GrowsCopies(arena, r.value) && save <= r.value.save
    decreases Remaining(input, save), 1, n
  {
    if n == 0 then Ok(Copies(arena, working, next, save))
    else
      match Element(input, save, arena, next)
      case Err(m) => Err(m)
      case Ok(e) =>
        var r := Repeat(input, e.pos, n - 1, e.arena, next, e.exit);
        if r.Ok? then ExtendsTrans(arena, e.arena, r.value.arena); r else r
  }

  /**
   * `n` rounds of `working = next`, an epsilon edge from it to `end`, and
   * `next = parse_element(save_ptr, working)`.
   */
  ghost function RepeatOptional(input: seq<byte>, save: nat, n: nat, arena: seq<State>, working: nat, next: nat, end: nat): (r: Result<Copies>)
    requires Valid(arena) && working < |arena| && next < |arena| && end < |arena|
    ensures r.Ok? ==> GrowsCopies(arena, r.value) && save <= r.value.save
    decreases Remaining(input, save), 1, n
  {
    if n == 0 then Ok(Copies(arena, working, next, save))
    else
      var a := AddEpsilon(arena, next, end);
      match Element(input, save, a, next)
      case Err(m) => Err(m)
      case Ok(e) =>
        ExtendsTrans(arena, a, e.arena);
        var r := RepeatOptional(input, e.pos, n - 1, e.arena, next, e.exit, end);
        if r.Ok? then ExtendsTrans(arena, e.arena, r.value.arena); r else r
  }

  /**
   * The `do ... while(*str++ == '|')` loop of `parse_regex`: every
   * alternative starts at `entry` and its exit is joined to `out`.
   */
  ghost function Alternatives(input: seq<byte>, pos: nat, arena: seq<State>, entry: nat, out: nat): (r: Result<Built>)
    requires Valid(arena) && entry < |arena| && out < |arena|
    ensures r.Ok? ==> Grows(arena, r.value) && r.value.exit == out && pos < r.value.pos
    ensures r.Ok? ==> At(input, r.value.pos - 1) == 0
    decreases Remaining(input, pos), 6, 0
  {
    var c := Chunk(input, pos, arena, entry);
    if c.Err? then Err(c.message) else AlternativesAfter(input, pos, arena, entry, out, c.value)
  }

  /**
   * The rest of the loop once the chunk `c` that began at `pos` is parsed:
   * join its exit to `out`, and go on after a `|`.
   */
  ghost function AlternativesAfter(input: seq<byte>, pos: nat, arena: seq<State>, entry: nat, out: nat, c: Built): (r: Result<Built>)
    requires Valid(arena) && entry < |arena| && out < |arena| && Grows(arena, c) && pos <= c.pos
    requires At(input, c.pos) == '|' as byte || At(input, c.pos) == 0
    ensures r.Ok? ==> Grows(arena, r.value) && r.value.exit == out && pos < r.value.pos
    ensures r.Ok? ==> At(input, r.value.pos - 1) == 0
    decreases Remaining(input, pos), 5, 1
  {
    var a := AddEpsilon(c.arena, c.exit, out);
    ExtendsTrans(arena, c.arena, a);
    if At(input, c.pos) == '|' as byte then
      var r := Alternatives(input, c.pos + 1, a, entry, out);
      if r.Ok? then ExtendsTrans(arena, a, r.value.arena); r else r
    else Ok(Built(a, out, c.pos + 1))
  }

  /**
   * `parse_regex`: allocates its exit state first, then the alternatives.
   * On success the cursor has passed the terminator.
   */
  ghost function Regex(input: seq<byte>, pos: nat, arena: seq<State>, entry: nat): (r: Result<Built>)
    requires Valid(arena) && entry < |arena|
    ensures r.Ok? ==> Grows(arena, r.value) && r.value.exit == |arena| && pos < r.value.pos
    ensures r.Ok? ==> At(input, r.value.pos - 1) == 0
    ensures r.Ok? && NoNul(input) ==> |input| < r.value.pos
    decreases Remaining(input, pos), 7, 0
  {
    Alternatives(input, pos, NewState(arena), entry, |arena|)
  }

  /**
   * `Nfa::Nfa(const char*)`: a one-state arena whose state 0 is the start,
   * the top-level regex from it, and its exit marked accepting.
   */
  ghost function Compile(regex: seq<byte>): (r: Result<seq<State>>)
    requires NoNul(regex)
    ensures r.Ok? ==> Valid(r.value) && 2 <= |r.value| && AcceptingStates(r.value) == {1}
  {
    match Regex(regex, 0, [Fresh], 0)
    case Err(m) => Err(m)
    case Ok(g) =>
      assert AcceptingStates([Fresh]) == {};
      MarkAccepting(g.arena, g.exit);
      Ok(g.arena[g.exit := g.arena[g.exit].(accepting := true)])
  }

  /** The loop of `parse_regex` after one chunk: what is left is `AlternativesAfter`. */
  lemma AlternativesFirstChunk(input: seq<byte>, pos: nat, arena: seq<State>, entry: nat, out: nat, c: Built)
    requires Valid(arena) && entry < |arena| && out < |arena|
    requires Chunk(input, pos, arena, entry) == Ok(c)
    ensures Grows(arena, c) && pos <= c.pos && (At(input, c.pos) == '|' as byte || At(input, c.pos) == 0)
    ensures Alternatives(input, pos, arena, entry, out) == AlternativesAfter(input, pos, arena, entry, out, c)
  {
  }

  /** After a `|` the loop starts over from the same entry, on the arena with the chunk's exit joined to `out`. */
  lemma AlternativesContinue(input: seq<byte>, pos: nat, arena: seq<State>, entry: nat, out: nat, c: Built)
    requires Valid(arena) && entry < |arena| && out < |arena| && Grows(arena, c) && pos <= c.pos
    requires At(input, c.pos) == '|' as byte
    ensures AlternativesAfter(input, pos, arena, entry, out, c)
            == Alternatives(input, c.pos + 1, AddEpsilon(c.arena, c.exit, out), entry, out)
  {
    var a := AddEpsilon(c.arena, c.exit, out);
    ExtendsTrans(arena, c.arena, a);
    var r := Alternatives(input, c.pos + 1, a, entry, out);
    if r.Ok? {
      ExtendsTrans(arena, a, r.value.arena);
    }
  }

  /** One round of the `parse_chunk` loop, as the loop takes it. */
  lemma ChunkStep(input: seq<byte>, pos: nat, arena: seq<State>, working: nat, e: Built, o: Built)
    requires Valid(arena) && working < |arena|
    requires At(input, pos) != '|' as byte && At(input, pos) != 0
    requires Element(input, pos, arena, working) == Ok(e)
    requires Operator(input, pos, working, e) == Ok(o)
    ensures Grows(arena, o) && pos < o.pos
    ensures Chunk(input, pos, arena, working) == Chunk(input, o.pos, o.arena, o.exit)
  {
  }

  /** One round of the class loop, as the loop takes it. */
  lemma ClassStep(input: seq<byte>, pos: nat, arena: seq<State>, entry: nat, exit: nat)
    requires Valid(arena) && entry < |arena| && exit < |arena|
    ensures At(input, pos + 1) != '-' as byte ==> ClassRanges(input, pos, arena, entry, exit) == Err(DashRequired)
    ensures At(input, pos + 1) == '-' as byte ==>
      var lo := At(input, pos);
      var hi := At(input, pos + 2);
      var a := if hi < lo then AddRange(arena, entry, hi, lo, exit) else AddRange(arena, entry, lo, hi, exit);
      && Valid(a) && |a| == |arena|
      && (At(input, pos + 3) != ']' as byte ==> ClassRanges(input, pos, arena, entry, exit) == ClassRanges(input, pos + 3, a, entry, exit))
      && (At(input, pos + 3) == ']' as byte ==> ClassRanges(input, pos, arena, entry, exit) == Ok(Built(a, exit, pos + 4)))
  {
  }

  /** One round of the `{min}` loop, as the loop takes it. */
  lemma RepeatStep(input: seq<byte>, save: nat, n: nat, arena: seq<State>, working: nat, next: nat)
    requires Valid(arena) && working < |arena| && next < |arena| && 0 < n
    ensures Element(input, save, arena, next).Err? ==>
      Repeat(input, save, n, arena, working, next) == Err(Element(input, save, arena, next).message)
    ensures Element(input, save, arena, next).Ok? ==>
      var e := Element(input, save, arena, next).value;
      Repeat(input, save, n, arena, working, next) == Repeat(input, e.pos, n - 1, e.arena, next, e.exit)
  {
  }

  /** One round of the `{min-max}` loop, as the loop takes it. */
  lemma RepeatOptionalStep(input: seq<byte>, save: nat, n: nat, arena: seq<State>, working: nat, next: nat, end: nat)
    requires Valid(arena) && working < |arena| && next < |arena| && end < |arena| && 0 < n
    ensures
      var a := AddEpsilon(arena, next, end);
      && Valid(a)
      && (Element(input, save, a, next).Err? ==>
            RepeatOptional(input, save, n, arena, working, next, end) == Err(Element(input, save, a, next).message))
      && (Element(input, save, a, next).Ok? ==>
            var e := Element(input, save, a, next).value;
            RepeatOptional(input, save, n, arena, working, next, end) == RepeatOptional(input, e.pos, n - 1, e.arena, next, e.exit, end))
  {
  }
}
