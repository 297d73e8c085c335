/**
 The ideal line discipline: what a terminal should do with keys, readers and kernel output, and which
 events the driver gets wrong.
 */
module LineDiscipline {
  import opened Screen
  import opened Keyboard

  /** The buffer holds this many characters and a terminator. */
  const CAPACITY := 511

  function Pop(line: seq<Char>): seq<Char> {
    if line == [] then [] else line[..|line| - 1]
  }

  /** Keys arrive, the reader starts afresh or collects a line, the kernel prints. */
  datatype Event = Key(scancode: nat) | Reset | Collect | Output(data: seq<Char>)

  /** The line being typed, the lines entered and not yet collected, those read, those lost, and the paper. */
  datatype Session = Session(kbd: Kbd, current: seq<Char>, pending: seq<seq<Char>>, read: seq<seq<Char>>,
                             lost: seq<seq<Char>>, paper: Paper, color: nat)

  /** A character on paper; a backspace with no room before it shows nothing. */
  function Shown(p: Paper, c: Char, color: nat): (p': Paper)
    requires p.Valid()
    ensures p'.Valid()
  {
    if c == BACKSPACE_CHAR && p.AtOrigin() then p else Advance(p, c, color)
  }

  /**
   Keys edit the current line as a stack and Enter adds it to the lines pending. Collecting takes the
   oldest of them. A reader that starts afresh wants only what is typed from then on.
   */
  function Ideal(s: Session, e: Event): (t: Session)
    requires s.paper.Valid()
    ensures t.paper.Valid()
  {
    match e
    case Reset => s.(current := [], pending := [], lost := s.lost + s.pending)
    case Collect => if s.pending == [] then s else s.(pending := s.pending[1..], read := s.read + [s.pending[0]])
    case Output(data) => if Stays(s.paper, data, s.color) then s.(paper := AdvanceAll(s.paper, data, s.color)) else s
    case Key(code) =>
      var t := s.(kbd := NextKbd(s.kbd, code));
      match Meaning(s.kbd, code)
      case Press(c) => t.(current := s.current + [c], paper := Shown(s.paper, c, s.color))
      case Erase =>
        if s.current == [] then t else t.(current := Pop(s.current), paper := Shown(s.paper, BACKSPACE_CHAR, s.color))
      case Enter => t.(current := [], pending := s.pending + [s.current], paper := Shown(s.paper, NEWLINE, s.color))
      case Silent => t
      case Beyond => t
  }

  function IdealRun(s: Session, es: seq<Event>): (t: Session)
    requires s.paper.Valid()
    ensures t.paper.Valid()
    decreases |es|
  {
    if es == [] then s else IdealRun(Ideal(s, es[0]), es[1..])
  }

  // ----- What the driver can follow -----------------------------------------------------------------

  /** Storing c and a terminator at k spoils a pending line that reaches that far. */
  predicate Clobbers(text: seq<Char>, k: nat, c: Char) {
    (k < |text| && text[k] != c) || (k + 1 < |text| && text[k + 1] != 0)
  }

  /** So does storing a terminator at k. */
  predicate Blots(text: seq<Char>, k: nat) {
    k < |text| && text[k] != 0
  }

  /**
   The event does no harm to a pending line. The driver has one buffer and remembers one line: a
   second Enter overwrites it, a character or backspace may spoil it, and a reader that starts afresh
   does not drop it.
   */
  predicate Spares(s: Session, e: Event) {
    s.pending != [] ==>
      match e
      case Key(code) => (
        match Meaning(s.kbd, code)
        case Press(c) => !Clobbers(s.pending[0], |s.current|, c)
        case Erase => s.current == [] || !Blots(s.pending[0], |s.current| - 1)
        case Enter => false
        case _ => true)
      case Reset => false
      case _ => true
  }

  /**
   The key is in the tables and the buffer has room for its character; the kernel does not print
   into a line being typed, nor a backspace at the origin.
   */
  predicate InRange(s: Session, e: Event)
    requires s.paper.Valid()
  {
    match e
    case Key(code) =>
      && code < 0x100
      && !Meaning(s.kbd, code).Beyond?
      && (Meaning(s.kbd, code).Press? ==> |s.current| < 511)
    case Output(data) => s.current == [] && Stays(s.paper, data, s.color)
    case _ => true
  }

  predicate Calm(s: Session, e: Event)
    requires s.paper.Valid()
  {
    InRange(s, e) && Spares(s, e)
  }

  predicate CalmRun(s: Session, es: seq<Event>)
    requires s.paper.Valid()
    decreases |es|
  {
    es == [] || (Calm(s, es[0]) && CalmRun(Ideal(s, es[0]), es[1..]))
  }

  lemma {:induction false} RunAppend(s: Session, a: seq<Event>, b: seq<Event>)
    requires s.paper.Valid()
    ensures IdealRun(s, a + b) == IdealRun(IdealRun(s, a), b)
    ensures CalmRun(s, a + b) <==> CalmRun(s, a) && CalmRun(IdealRun(s, a), b)
    decreases |a|
  {
    if a == [] {
      assert a + b == b;
    } else {
      assert (a + b)[1..] == a[1..] + b;
      RunAppend(Ideal(s, a[0]), a[1..], b);
    }
  }

  lemma RunOne(s: Session, e: Event)
    requires s.paper.Valid()
    ensures IdealRun(s, [e]) == Ideal(s, e) && (CalmRun(s, [e]) <==> Calm(s, e))
  {
    assert [e][1..] == [];
  }

  // ----- No line is lost ------------------------------------------------------------------------------

  /** The line an event hands over, if it is Enter. */
  function EnteredBy(s: Session, e: Event): seq<seq<Char>> {
    if e.Key? && Meaning(s.kbd, e.scancode).Enter? then [s.current] else []
  }

  /** The lines handed over, in order. */
  function Entered(s: Session, es: seq<Event>): seq<seq<Char>>
    requires s.paper.Valid()
    decreases |es|
  {
    if es == [] then [] else EnteredBy(s, es[0]) + Entered(Ideal(s, es[0]), es[1..])
  }

  function AllLines(s: Session): multiset<seq<Char>> {
    multiset(s.read) + multiset(s.pending) + multiset(s.lost)
  }

  lemma LineAccounted(s: Session, e: Event)
    requires s.paper.Valid()
    ensures AllLines(Ideal(s, e)) == AllLines(s) + multiset(EnteredBy(s, e))
  {
    if e.Collect? && s.pending != [] {
      assert s.pending == [s.pending[0]] + s.pending[1..];
    }
  }

  /** Every line entered is read, pending, or among the lost: none vanishes and none is made up. */
  lemma {:induction false} LinesAccounted(s: Session, es: seq<Event>)
    requires s.paper.Valid()
    ensures AllLines(IdealRun(s, es)) == AllLines(s) + multiset(Entered(s, es))
    decreases |es|
  {
    if es != [] {
      LineAccounted(s, es[0]);
      LinesAccounted(Ideal(s, es[0]), es[1..]);
    }
  }

  lemma CalmStep(s: Session, e: Event)
    requires s.paper.Valid() && Calm(s, e)
    ensures var t := Ideal(s, e);
            t.lost == s.lost && t.read + t.pending == s.read + s.pending + EnteredBy(s, e)
  {
  }

  /** In a calm run nothing is lost, and the lines read and pending are those entered, in order. */
  lemma {:induction false} CalmLosesNothing(s: Session, es: seq<Event>)
    requires s.paper.Valid() && CalmRun(s, es)
    ensures var t := IdealRun(s, es);
            t.lost == s.lost && t.read + t.pending == s.read + s.pending + Entered(s, es)
    decreases |es|
  {
    if es != [] {
      CalmStep(s, es[0]);
      CalmLosesNothing(Ideal(s, es[0]), es[1..]);
    }
  }

  // ----- One read ----------------------------------------------------------------------------------------

  /** The edit of one key: push, pop, or nothing. */
  function EditOne(k: Kbd, line: seq<Char>, code: nat): seq<Char> {
    match Meaning(k, code)
    case Press(c) => line + [c]
    case Erase => Pop(line)
    case _ => line
  }

  /** The fold of the keys over a line. */
  function Edit(k: Kbd, line: seq<Char>, keys: seq<nat>): seq<Char>
    decreases |keys|
  {
    if keys == [] then line else Edit(NextKbd(k, keys[0]), EditOne(k, line, keys[0]), keys[1..])
  }

  /** All keys are in the tables, and the line always has room. */
  predicate Room(k: Kbd, line: seq<Char>, keys: seq<nat>)
    decreases |keys|
  {
    keys == [] ||
    (&& keys[0] < 0x100
     && !Meaning(k, keys[0]).Beyond?
     && (Meaning(k, keys[0]).Press? ==> |line| < 511)
     && Room(NextKbd(k, keys[0]), EditOne(k, line, keys[0]), keys[1..]))
  }

  function Keys(keys: seq<nat>): seq<Event> {
    seq(|keys|, i requires 0 <= i < |keys| => Key(keys[i]))
  }

  /** Keys without Enter edit the line and touch nothing else. */
  lemma {:induction false} KeysEdit(s: Session, keys: seq<nat>)
    requires s.paper.Valid() && ENTER !in keys
    ensures var t := IdealRun(s, Keys(keys));
            && t.current == Edit(s.kbd, s.current, keys)
            && t.pending == s.pending && t.read == s.read && t.lost == s.lost
    ensures s.pending == [] ==> (CalmRun(s, Keys(keys)) <==> Room(s.kbd, s.current, keys))
    decreases |keys|
  {
    if keys != [] {
      var t := Ideal(s, Key(keys[0]));
      assert Keys(keys)[1..] == Keys(keys[1..]);
      assert !Meaning(s.kbd, keys[0]).Enter?;
      assert t.kbd == NextKbd(s.kbd, keys[0]) && t.current == EditOne(s.kbd, s.current, keys[0]);
      KeysEdit(t, keys[1..]);
    }
  }

  /** What happens during one read: the reset, the keys, Enter, and the copy. */
  function ReadEvents(keys: seq<nat>): seq<Event> {
    [Reset] + Keys(keys) + [Key(ENTER)] + [Collect]
  }

  /**
   A read adds exactly the edit of the keys since its own reset. The driver can follow it if and only
   if no line was pending at that reset and the keys fit the buffer.
   */
  lemma ReadIsEdit(s: Session, keys: seq<nat>)
    requires s.paper.Valid() && ENTER !in keys
    ensures var t := IdealRun(s, ReadEvents(keys));
            t.read == s.read + [Edit(s.kbd, [], keys)] && t.pending == [] && t.current == []
    ensures CalmRun(s, ReadEvents(keys)) <==> s.pending == [] && Room(s.kbd, [], keys)
  {
    var e1, e2, e3 := [Reset], [Reset] + Keys(keys), [Reset] + Keys(keys) + [Key(ENTER)];
    var s1 := Ideal(s, Reset);
    RunOne(s, Reset);
    RunAppend(s, e1, Keys(keys));
    KeysEdit(s1, keys);
    var s2 := IdealRun(s, e2);
    RunAppend(s, e2, [Key(ENTER)]);
    RunOne(s2, Key(ENTER));
    var s3 := IdealRun(s, e3);
    assert Meaning(s2.kbd, ENTER).Enter?;
    assert s3.pending == [Edit(s.kbd, [], keys)];
    RunAppend(s, e3, [Collect]);
    RunOne(s3, Collect);
  }

  // ----- Where the driver departs from it ---------------------------------------------------------------

  lemma RunFour(s: Session, a: Event, b: Event, c: Event, d: Event)
    requires s.paper.Valid()
    ensures var s2 := Ideal(Ideal(s, a), b);
            && IdealRun(s, [a, b, c, d]) == Ideal(Ideal(s2, c), d)
            && (CalmRun(s, [a, b, c, d]) ==> Calm(s2, c))
  {
    var s1 := Ideal(s, a);
    var s2 := Ideal(s1, b);
    assert [a, b, c, d] == [a] + [b, c, d] && [b, c, d] == [b] + [c, d] && [c, d] == [c] + [d];
    RunCons(s, a, [b, c, d]);
    RunCons(s1, b, [c, d]);
    RunCons(s2, c, [d]);
    RunOne(Ideal(s2, c), d);
  }

  lemma RunCons(s: Session, e: Event, es: seq<Event>)
    requires s.paper.Valid()
    ensures IdealRun(s, [e] + es) == IdealRun(Ideal(s, e), es)
    ensures CalmRun(s, [e] + es) <==> Calm(s, e) && CalmRun(Ideal(s, e), es)
  {
    RunAppend(s, [e], es);
    RunOne(s, e);
  }

  /** An empty session with no modifier down. */
  predicate Fresh(s: Session) {
    s.paper.Valid() && s.kbd == Kbd(false, false, false, false) && s.current == [] && s.pending == []
  }

  lemma EnteredA(s: Session)
    requires Fresh(s)
    ensures var t := Ideal(Ideal(s, Key(KEY_A)), Key(ENTER));
            t.pending == [['a' as int]] && t.current == [] && t.read == s.read && t.lost == s.lost
  {
    DecodeAB();
    assert Ideal(s, Key(KEY_A)).current == ['a' as int];
  }

  /** "a" and two Enters: the first collected line should be "a". The second Enter does not spare it. */
  lemma SecondEnter(s: Session)
    requires Fresh(s)
    ensures var es := [Key(KEY_A), Key(ENTER), Key(ENTER), Collect];
            && IdealRun(s, es).read == s.read + [['a' as int]] && IdealRun(s, es).pending == [[]]
            && !CalmRun(s, es)
  {
    RunFour(s, Key(KEY_A), Key(ENTER), Key(ENTER), Collect);
    EnteredA(s);
    var s2 := Ideal(Ideal(s, Key(KEY_A)), Key(ENTER));
    assert Ideal(s2, Key(ENTER)).pending == [['a' as int], []];
  }

  /** "a" and Enter before a reader starts: it should not get that line. The reset does not spare it. */
  lemma EarlyLine(s: Session)
    requires Fresh(s)
    ensures var es := [Key(KEY_A), Key(ENTER), Reset, Collect];
            && IdealRun(s, es).read == s.read && IdealRun(s, es).lost == s.lost + [['a' as int]]
            && !CalmRun(s, es)
  {
    RunFour(s, Key(KEY_A), Key(ENTER), Reset, Collect);
    EnteredA(s);
  }
}
