/**
 Control sequences as text: writing ESC [ p1 ; p2 ; ... f runs the sequence f on exactly those parameters.

 Decimal printing is inverted by the parser's digit-by-digit accumulation, up to the 32 bits it keeps.
 */
module ControlText {
  import opened Arithmetic
  import opened Screens
  import opened Parsers

  const ESC: Byte := 0x1b
  const BRACKET: Byte := 0x5b
  const SEMICOLON: Byte := 0x3b

  /** Decimal digits of n. */
  function Digits(n: nat): (d: seq<Byte>)
    ensures 1 <= |d| <= n + 1 && forall i :: 0 <= i < |d| ==> 0x30 <= d[i] <= 0x39
  {
    if n < 10 then [0x30 + n] else Digits(n / 10) + [0x30 + n % 10]
  }

  /** A parameter: a number, or nothing between two semicolons. */
  datatype Parameter = Given(n: nat) | Empty {
    function Text(): seq<Byte> {
      if Given? then Digits(n) else []
    }

    function Value(): (v: int)
      ensures 0 <= v < TWO_32
    {
      if Given? then n % TWO_32 else 0
    }
  }

  /** p1 ; p2 ; ... ; pn */
  function JoinedTo(ps: seq<Parameter>, n: nat): seq<Byte>
    requires n <= |ps|
  {
    if n == 0 then []
    else if n == 1 then ps[0].Text()
    else JoinedTo(ps, n - 1) + [SEMICOLON] + ps[n - 1].Text()
  }

  function Joined(ps: seq<Parameter>): seq<Byte> {
    JoinedTo(ps, |ps|)
  }

  /** The values that the parser keeps of the first n parameters: sixteen at most, 0 for an empty one. */
  function Kept(ps: seq<Parameter>, n: nat): (v: seq<int>)
    requires n <= |ps|
    ensures CsiValues(v)
  {
    seq(MAX_ESC_VALUES, i requires 0 <= i < MAX_ESC_VALUES => if i < n then ps[i].Value() else 0)
  }

  /** Which value the n-th parameter is, and whether a number is being read there. */
  function Index(n: nat): (i: nat)
    requires 1 <= n
    ensures i <= MAX_ESC_VALUES
  {
    Min(n - 1, MAX_ESC_VALUES)
  }

  function Reading(ps: seq<Parameter>, n: nat): (rrr: Flag)
    requires 1 <= n <= |ps|
    ensures rrr.On? ==> Index(n) < MAX_ESC_VALUES
  {
    FlagOf(n <= MAX_ESC_VALUES && ps[n - 1].Given?)
  }

  /** How many values a sequence is given: an empty last parameter does not count, nor do any beyond the sixteenth. */
  function Count(ps: seq<Parameter>): (n: nat)
    requires ps != []
    ensures n <= MAX_ESC_VALUES
  {
    if Reading(ps, |ps|).On? then Index(|ps|) + 1 else Index(|ps|)
  }

  /** The parser is between characters, with no mode that would divert an escape sequence. */
  predicate AtRest(t: Term) {
    && t.p.escape.Off? && t.p.controlSequence.Off? && t.p.osc.Off? && t.p.discardNext.Off?
    && t.p.unicodeRemaining == 0 && t.p.gSelect == 0
  }

  /** Inside a control sequence: values v, the current one number i, `offset` bytes after ESC. */
  function Inside(t: Term, v: seq<int>, i: nat, rrr: Flag, offset: nat): Term {
    t.(v := v, p := t.p.(escape := On, controlSequence := On, escValuesI := i, rrr := rrr, escapeOffset := offset))
  }

  /** The values of an index: no number is read beyond the last one. */
  predicate Indexed(i: nat, rrr: Flag) {
    i <= MAX_ESC_VALUES && (rrr.On? ==> i < MAX_ESC_VALUES)
  }

  /** A final byte of a control sequence (ECMA-48, section 5.4). */
  predicate IsFinal(f: Byte) {
    0x40 <= f <= 0x7e
  }

  // ---- One byte ----

  lemma PutEscape(k: Tables, t: Term)
    requires k.Valid() && t.Valid() && AtRest(t)
    ensures Put(k, t, ESC) == t.(p := t.p.(escapeOffset := 0, escape := On))
  {
  }

  lemma PutBracket(k: Tables, t: Term)
    requires k.Valid() && t.Valid() && AtRest(t)
    ensures Put(k, t.(p := t.p.(escapeOffset := 0, escape := On)), BRACKET) == Inside(t, Kept([], 0), 0, Off, 1)
  {
    assert seq(MAX_ESC_VALUES, _ => 0) == Kept([], 0);
  }

  lemma InsideValid(t: Term, v: seq<int>, i: nat, rrr: Flag, offset: nat)
    requires t.Valid() && CsiValues(v) && Indexed(i, rrr)
    ensures Inside(t, v, i, rrr, offset).Valid()
  {
  }

  /** The parser is inside a control sequence. */
  predicate InSequence(t: Term) {
    && t.p.discardNext.Off? && t.p.unicodeRemaining == 0 && t.p.escape.On? && t.p.osc.Off? && t.p.controlSequence.On?
  }

  lemma PutIsFresh(k: Tables, t: Term, c: Byte)
    requires k.Valid() && t.Valid() && InSequence(t) && c != 0x18 && c != 0x1a
    ensures Put(k, t, c) == FreshByte(k, t, c)
  {
    assert t.(p := t.p.(unicodeRemaining := 0)) == t;
  }

  lemma FreshIsEscape(k: Tables, t: Term, c: Byte)
    requires k.Valid() && t.Valid() && InSequence(t) && c < 0xc0
    ensures FreshByte(k, t, c) == EscapeParse(k, t, c)
  {
  }

  lemma EscapeIsControl(k: Tables, t: Term, c: Byte)
    requires k.Valid() && t.Valid() && InSequence(t)
    ensures EscapeParse(k, t, c) == ControlSequence(k, Counted(t), c)
  {
  }

  lemma InsideCounted(t: Term, v: seq<int>, i: nat, rrr: Flag, offset: nat)
    requires offset < TWO_64 - 1 && Inside(t, v, i, rrr, offset).Valid()
    ensures Counted(Inside(t, v, i, rrr, offset)) == Inside(t, v, i, rrr, offset + 1)
  {
    assert Wrap64(offset + 1) == offset + 1;
  }

  /** A byte inside a control sequence goes to control_sequence_parse. */
  lemma PutInside(k: Tables, t: Term, v: seq<int>, i: nat, rrr: Flag, offset: nat, c: Byte)
    requires k.Valid() && t.Valid() && AtRest(t) && CsiValues(v) && Indexed(i, rrr)
    requires offset < TWO_64 - 1 && c < 0xc0 && c != 0x18 && c != 0x1a
    ensures Inside(t, v, i, rrr, offset).Valid() && Inside(t, v, i, rrr, offset + 1).Valid()
    ensures Put(k, Inside(t, v, i, rrr, offset), c) == ControlSequence(k, Inside(t, v, i, rrr, offset + 1), c)
  {
    InsideValid(t, v, i, rrr, offset);
    InsideValid(t, v, i, rrr, offset + 1);
    PutIsFresh(k, Inside(t, v, i, rrr, offset), c);
    FreshIsEscape(k, Inside(t, v, i, rrr, offset), c);
    InsideCounted(t, v, i, rrr, offset);
    EscapeIsControl(k, Inside(t, v, i, rrr, offset), c);
  }

  /** A digit goes to the value being read; behind the last one it is ignored. */
  function DigitPut(t: Term, v: seq<int>, i: nat, rrr: Flag, offset: nat, d: Byte): Term
    requires CsiValues(v) && 0x30 <= d <= 0x39
  {
    if i >= MAX_ESC_VALUES then Inside(t, v, i, rrr, offset + 1)
    else Inside(t, v[i := (v[i] * 10 + (d - 0x30)) % TWO_32], i, On, offset + 1)
  }

  lemma PutDigit(k: Tables, t: Term, v: seq<int>, i: nat, rrr: Flag, offset: nat, d: Byte)
    requires k.Valid() && t.Valid() && AtRest(t) && CsiValues(v) && Indexed(i, rrr)
    requires 1 <= offset < TWO_64 - 1 && 0x30 <= d <= 0x39
    ensures Put(k, Inside(t, v, i, rrr, offset), d) == DigitPut(t, v, i, rrr, offset, d)
  {
    PutInside(k, t, v, i, rrr, offset, d);
  }

  /** A semicolon ends the value being read, or an empty one, which is 0; behind the last one it is ignored. */
  function SemicolonPut(t: Term, v: seq<int>, i: nat, rrr: Flag, offset: nat): Term
    requires CsiValues(v)
  {
    if rrr.On? then Inside(t, v, i + 1, Off, offset + 1)
    else if i >= MAX_ESC_VALUES then Inside(t, v, i, Off, offset + 1)
    else Inside(t, v[i := 0], i + 1, Off, offset + 1)
  }

  lemma PutSemicolon(k: Tables, t: Term, v: seq<int>, i: nat, rrr: Flag, offset: nat)
    requires k.Valid() && t.Valid() && AtRest(t) && CsiValues(v) && Indexed(i, rrr) && 1 <= offset < TWO_64 - 1
    ensures Put(k, Inside(t, v, i, rrr, offset), SEMICOLON) == SemicolonPut(t, v, i, rrr, offset)
  {
    PutInside(k, t, v, i, rrr, offset, SEMICOLON);
  }

  lemma ControlIsFinal(k: Tables, t: Term, f: Byte)
    requires k.Valid() && t.Valid() && IsFinal(f) && (t.p.escapeOffset == 2 ==> f != BRACKET)
    ensures ControlSequence(k, t, f) == FinalByte(k, t, f)
  {
  }

  lemma PutFinal(k: Tables, t: Term, v: seq<int>, i: nat, rrr: Flag, offset: nat, f: Byte)
    requires k.Valid() && t.Valid() && AtRest(t) && CsiValues(v) && Indexed(i, rrr)
    requires 1 <= offset < TWO_64 - 1 && IsFinal(f) && (offset == 1 ==> f != BRACKET)
    ensures Inside(t, v, i, rrr, offset + 1).Valid()
    ensures Put(k, Inside(t, v, i, rrr, offset), f) == FinalByte(k, Inside(t, v, i, rrr, offset + 1), f)
  {
    PutInside(k, t, v, i, rrr, offset, f);
    ControlIsFinal(k, Inside(t, v, i, rrr, offset + 1), f);
  }

  // ---- The parameter bytes ----

  /** What the lemmas above say of a step function. */
  ghost predicate ReadsParameters(f: (Term, Byte) -> Term, t: Term) {
    ReadsDigit(f, t) && ReadsSemicolon(f, t)
  }

  ghost predicate ReadsDigit(f: (Term, Byte) -> Term, t: Term) {
    forall v, i: nat, rrr, offset: nat, d: Byte {:trigger DigitPut(t, v, i, rrr, offset, d)} ::
      CsiValues(v) && Indexed(i, rrr) && 1 <= offset < TWO_64 - 1 && 0x30 <= d <= 0x39 ==>
      f(Inside(t, v, i, rrr, offset), d) == DigitPut(t, v, i, rrr, offset, d)
  }

  ghost predicate ReadsSemicolon(f: (Term, Byte) -> Term, t: Term) {
    forall v, i: nat, rrr, offset: nat {:trigger SemicolonPut(t, v, i, rrr, offset)} ::
      CsiValues(v) && Indexed(i, rrr) && 1 <= offset < TWO_64 - 1 ==>
      f(Inside(t, v, i, rrr, offset), SEMICOLON) == SemicolonPut(t, v, i, rrr, offset)
  }

  lemma StepIsPut(k: Tables, t: Term, c: Byte)
    requires k.Valid() && t.Valid()
    ensures Step(k)(t, c) == Put(k, t, c)
  {
  }

  lemma ReadDigit(k: Tables, t: Term)
    requires k.Valid() && t.Valid() && AtRest(t)
    ensures ReadsDigit(Step(k), t)
  {
    forall v, i: nat, rrr, offset: nat, d: Byte
      | CsiValues(v) && Indexed(i, rrr) && 1 <= offset < TWO_64 - 1 && 0x30 <= d <= 0x39
      ensures Step(k)(Inside(t, v, i, rrr, offset), d) == DigitPut(t, v, i, rrr, offset, d)
    {
      InsideValid(t, v, i, rrr, offset);
      StepIsPut(k, Inside(t, v, i, rrr, offset), d);
      PutDigit(k, t, v, i, rrr, offset, d);
    }
  }

  lemma ReadSemicolon(k: Tables, t: Term)
    requires k.Valid() && t.Valid() && AtRest(t)
    ensures ReadsSemicolon(Step(k), t)
  {
    forall v, i: nat, rrr, offset: nat | CsiValues(v) && Indexed(i, rrr) && 1 <= offset < TWO_64 - 1
      ensures Step(k)(Inside(t, v, i, rrr, offset), SEMICOLON) == SemicolonPut(t, v, i, rrr, offset)
    {
      InsideValid(t, v, i, rrr, offset);
      StepIsPut(k, Inside(t, v, i, rrr, offset), SEMICOLON);
      PutSemicolon(k, t, v, i, rrr, offset);
    }
  }

  lemma DigitRead(f: (Term, Byte) -> Term, t: Term, start: Term, bytes: seq<Byte>, v: seq<int>, i: nat, rrr: Flag,
                  offset: nat, q: nat, d: nat)
    requires ReadsDigit(f, t) && CsiValues(v) && i < MAX_ESC_VALUES && 1 <= offset < TWO_64 - 1 && d <= 9
    requires Run(f, start, bytes) == Inside(t, v[i := q % TWO_32], i, rrr, offset)
    ensures Run(f, start, bytes + [0x30 + d]) == Inside(t, v[i := (q * 10 + d) % TWO_32], i, On, offset + 1)
  {
    var w := v[i := q % TWO_32];
    RunLast(f, start, bytes, 0x30 + d);
    DigitModulo(q, d, TWO_32);
    assert DigitPut(t, w, i, rrr, offset, 0x30 + d) == Inside(t, w[i := (q * 10 + d) % TWO_32], i, On, offset + 1);
    assert w[i := (q * 10 + d) % TWO_32] == v[i := (q * 10 + d) % TWO_32];
  }

  lemma {:induction false} DigitsRead(f: (Term, Byte) -> Term, t: Term, v: seq<int>, i: nat, offset: nat, n: nat)
    requires ReadsDigit(f, t) && CsiValues(v) && i < MAX_ESC_VALUES && v[i] == 0
    requires 1 <= offset && offset + |Digits(n)| < TWO_64 - 1
    ensures Run(f, Inside(t, v, i, Off, offset), Digits(n))
         == Inside(t, v[i := n % TWO_32], i, On, offset + |Digits(n)|)
    decreases n
  {
    var start := Inside(t, v, i, Off, offset);
    if n < 10 {
      assert v[i := 0 % TWO_32] == v;
      DigitRead(f, t, start, [], v, i, Off, offset, 0, n);
      assert [] + [0x30 + n] == Digits(n);
    } else {
      assert Digits(n) == Digits(n / 10) + [0x30 + n % 10];
      DigitsRead(f, t, v, i, offset, n / 10);
      LastDigitRead(f, t, start, Digits(n / 10), v, i, offset, n);
    }
  }

  lemma LastDigitRead(f: (Term, Byte) -> Term, t: Term, start: Term, bytes: seq<Byte>, v: seq<int>, i: nat, offset: nat, n: nat)
    requires ReadsDigit(f, t) && CsiValues(v) && i < MAX_ESC_VALUES
    requires 1 <= offset && offset + |bytes| < TWO_64 - 1
    requires Run(f, start, bytes) == Inside(t, v[i := n / 10 % TWO_32], i, On, offset + |bytes|)
    ensures Run(f, start, bytes + [0x30 + n % 10]) == Inside(t, v[i := n % TWO_32], i, On, offset + |bytes| + 1)
  {
    Parted(n, 10);
    DigitRead(f, t, start, bytes, v, i, On, offset + |bytes|, n / 10, n % 10);
  }

  /** Behind the last value digits are ignored. */
  lemma {:induction false} DigitsIgnored(f: (Term, Byte) -> Term, t: Term, v: seq<int>, offset: nat, bytes: seq<Byte>)
    requires ReadsDigit(f, t) && CsiValues(v) && 1 <= offset && offset + |bytes| < TWO_64 - 1
    requires forall i :: 0 <= i < |bytes| ==> 0x30 <= bytes[i] <= 0x39
    ensures Run(f, Inside(t, v, MAX_ESC_VALUES, Off, offset), bytes)
         == Inside(t, v, MAX_ESC_VALUES, Off, offset + |bytes|)
    decreases |bytes|
  {
    if bytes != [] {
      var n := |bytes| - 1;
      DigitsIgnored(f, t, v, offset, bytes[..n]);
      RunLast(f, Inside(t, v, MAX_ESC_VALUES, Off, offset), bytes[..n], bytes[n]);
      assert DigitPut(t, v, MAX_ESC_VALUES, Off, offset + n, bytes[n])
          == Inside(t, v, MAX_ESC_VALUES, Off, offset + |bytes|);
      assert bytes[..n] + [bytes[n]] == bytes;
    }
  }

  /** The parser with the first n parameters read. */
  function Read(t: Term, ps: seq<Parameter>, n: nat, offset: nat): Term
    requires 1 <= n <= |ps|
  {
    Inside(t, Kept(ps, n), Index(n), Reading(ps, n), offset)
  }

  /** The parser where the one after them begins. */
  function Begun(t: Term, ps: seq<Parameter>, n: nat, offset: nat): Term
    requires n <= |ps|
  {
    Inside(t, Kept(ps, n), Min(n, MAX_ESC_VALUES), Off, offset)
  }

  lemma KeptMore(ps: seq<Parameter>, n: nat)
    requires n < |ps|
    ensures n < MAX_ESC_VALUES ==> Kept(ps, n)[n] == 0 && Kept(ps, n + 1) == Kept(ps, n)[n := ps[n].Value()]
    ensures n >= MAX_ESC_VALUES ==> Kept(ps, n + 1) == Kept(ps, n)
  {
  }

  /** A semicolon begins the next parameter. */
  lemma SemicolonRead(f: (Term, Byte) -> Term, t: Term, ps: seq<Parameter>, n: nat, offset: nat)
    requires ReadsSemicolon(f, t) && 1 <= n <= |ps| && 1 <= offset < TWO_64 - 1
    ensures f(Read(t, ps, n, offset), SEMICOLON) == Begun(t, ps, n, offset + 1)
  {
    if Reading(ps, n).Off? && n <= MAX_ESC_VALUES {
      assert Kept(ps, n)[n - 1 := 0] == Kept(ps, n);
    }
    assert SemicolonPut(t, Kept(ps, n), Index(n), Reading(ps, n), offset) == Begun(t, ps, n, offset + 1);
  }

  /** And its text fills it in. */
  lemma ParameterRead(f: (Term, Byte) -> Term, t: Term, ps: seq<Parameter>, n: nat, offset: nat)
    requires ReadsDigit(f, t) && n < |ps| && 1 <= offset && offset + |ps[n].Text()| < TWO_64 - 1
    ensures Run(f, Begun(t, ps, n, offset), ps[n].Text()) == Read(t, ps, n + 1, offset + |ps[n].Text()|)
  {
    KeptMore(ps, n);
    if ps[n].Empty? {
      if n < MAX_ESC_VALUES {
        assert Kept(ps, n)[n := 0] == Kept(ps, n);
      }
    } else if n < MAX_ESC_VALUES {
      DigitsRead(f, t, Kept(ps, n), n, offset, ps[n].n);
    } else {
      DigitsIgnored(f, t, Kept(ps, n), offset, Digits(ps[n].n));
    }
  }

  lemma Separated(f: (Term, Byte) -> Term, t: Term, start: Term, ps: seq<Parameter>, n: nat, before: seq<Byte>,
                  after: seq<Byte>, offset: nat)
    requires ReadsSemicolon(f, t) && 1 <= n <= |ps| && 1 <= offset < TWO_64 - 1
    requires after == before + [SEMICOLON] && Run(f, start, before) == Read(t, ps, n, offset)
    ensures Run(f, start, after) == Begun(t, ps, n, offset + 1)
  {
    RunLast(f, start, before, SEMICOLON);
    SemicolonRead(f, t, ps, n, offset);
  }

  lemma Filled(f: (Term, Byte) -> Term, t: Term, start: Term, ps: seq<Parameter>, m: nat, n: nat, before: seq<Byte>,
               after: seq<Byte>, offset: nat, next: nat)
    requires ReadsDigit(f, t) && n == m + 1 <= |ps| && 1 <= offset && next < TWO_64 - 1
    requires after == before + ps[m].Text() && next == offset + |ps[m].Text()|
    requires Run(f, start, before) == Begun(t, ps, m, offset)
    ensures Run(f, start, after) == Read(t, ps, n, next)
  {
    RunAppend(f, start, before, ps[m].Text());
    ParameterRead(f, t, ps, m, offset);
  }

  /** One parameter more. */
  lemma MoreRead(f: (Term, Byte) -> Term, t: Term, start: Term, ps: seq<Parameter>, n: nat, before: seq<Byte>,
                 after: seq<Byte>, offset: nat, next: nat)
    requires ReadsParameters(f, t) && 2 <= n <= |ps| && 1 <= offset && next < TWO_64 - 1
    requires after == before + [SEMICOLON] + ps[n - 1].Text() && next == offset + 1 + |ps[n - 1].Text()|
    requires Run(f, start, before) == Read(t, ps, n - 1, offset)
    ensures Run(f, start, after) == Read(t, ps, n, next)
  {
    Separated(f, t, start, ps, n - 1, before, before + [SEMICOLON], offset);
    Filled(f, t, start, ps, n - 1, n, before + [SEMICOLON], after, offset + 1, next);
  }

  lemma JoinedMore(ps: seq<Parameter>, n: nat)
    requires 1 <= n <= |ps|
    ensures JoinedTo(ps, n) == if n == 1 then ps[0].Text() else JoinedTo(ps, n - 1) + [SEMICOLON] + ps[n - 1].Text()
  {
  }

  lemma {:induction false} NumbersRead(f: (Term, Byte) -> Term, t: Term, start: Term, ps: seq<Parameter>, n: nat,
                                       text: seq<Byte>, offset: nat, end: nat)
    requires ReadsParameters(f, t) && 1 <= n <= |ps| && 1 <= offset && end < TWO_64 - 1
    requires start == Begun(t, ps, 0, offset) && text == JoinedTo(ps, n) && end == offset + |text|
    ensures Run(f, start, text) == Read(t, ps, n, end)
    decreases n
  {
    if n == 1 {
      FirstRead(f, t, start, ps, text, offset, end);
    } else {
      var before := JoinedTo(ps, n - 1);
      JoinedMore(ps, n);
      NumbersRead(f, t, start, ps, n - 1, before, offset, offset + |before|);
      MoreRead(f, t, start, ps, n, before, text, offset + |before|, end);
    }
  }

  lemma FirstRead(f: (Term, Byte) -> Term, t: Term, start: Term, ps: seq<Parameter>, text: seq<Byte>, offset: nat, end: nat)
    requires ReadsParameters(f, t) && ps != [] && 1 <= offset && end < TWO_64 - 1
    requires start == Begun(t, ps, 0, offset) && text == JoinedTo(ps, 1) && end == offset + |text|
    ensures Run(f, start, text) == Read(t, ps, 1, end)
  {
    JoinedMore(ps, 1);
    ParameterRead(f, t, ps, 0, offset);
  }

  lemma RunTwo(f: (Term, Byte) -> Term, t: Term, a: Byte, b: Byte, rest: seq<Byte>)
    ensures Run(f, t, [a, b] + rest) == Run(f, f(f(t, a), b), rest)
  {
    RunLast(f, t, [], a);
    RunLast(f, t, [a], b);
    assert [] + [a] == [a] && [a] + [b] == [a, b];
    RunAppend(f, t, [a, b], rest);
  }

  /** The introducer, then the parameters. */
  lemma ParametersRead(f: (Term, Byte) -> Term, t: Term, ps: seq<Parameter>)
    requires ReadsParameters(f, t) && ps != [] && |Joined(ps)| < TWO_64 - 4
    requires f(f(t, ESC), BRACKET) == Begun(t, ps, 0, 1)
    ensures Run(f, t, [ESC, BRACKET] + Joined(ps)) == Read(t, ps, |ps|, |Joined(ps)| + 1)
  {
    RunTwo(f, t, ESC, BRACKET, Joined(ps));
    NumbersRead(f, t, Begun(t, ps, 0, 1), ps, |ps|, Joined(ps), 1, |Joined(ps)| + 1);
  }

  lemma Introduced(k: Tables, t: Term, ps: seq<Parameter>)
    requires k.Valid() && t.Valid() && AtRest(t)
    ensures Step(k)(Step(k)(t, ESC), BRACKET) == Begun(t, ps, 0, 1)
  {
    PutEscape(k, t);
    PutBracket(k, t);
    assert Kept(ps, 0) == Kept([], 0);
  }

  /** The whole text, up to its last byte. */
  lemma SequenceRead(f: (Term, Byte) -> Term, t: Term, ps: seq<Parameter>, c: Byte)
    requires ReadsParameters(f, t) && ps != [] && |Joined(ps)| < TWO_64 - 4
    requires f(f(t, ESC), BRACKET) == Begun(t, ps, 0, 1)
    ensures Run(f, t, [ESC, BRACKET] + Joined(ps) + [c]) == f(Read(t, ps, |ps|, |Joined(ps)| + 1), c)
  {
    ParametersRead(f, t, ps);
    RunLast(f, t, [ESC, BRACKET] + Joined(ps), c);
  }

  lemma SequencePut(k: Tables, t: Term, ps: seq<Parameter>, f: Byte)
    requires k.Valid() && t.Valid() && AtRest(t) && ps != [] && |Joined(ps)| < TWO_64 - 4
    ensures Read(t, ps, |ps|, |Joined(ps)| + 1).Valid()
    ensures PutAll(k, t, [ESC, BRACKET] + Joined(ps) + [f]) == Put(k, Read(t, ps, |ps|, |Joined(ps)| + 1), f)
  {
    ReadDigit(k, t);
    ReadSemicolon(k, t);
    Introduced(k, t, ps);
    SequenceRead(Step(k), t, ps, f);
    PutAllIsRun(k, t, [ESC, BRACKET] + Joined(ps) + [f]);
    InsideValid(t, Kept(ps, |ps|), Index(|ps|), Reading(ps, |ps|), |Joined(ps)| + 1);
    StepIsPut(k, Read(t, ps, |ps|, |Joined(ps)| + 1), f);
  }

  /** ESC [ p1 ; p2 ; ... f, with any number of parameters, empty or not, runs sequence f on the first sixteen of them
      (modulo 2^32, 0 for an empty one).  ESC [ [ is another sequence. */
  lemma SequenceRuns(k: Tables, t: Term, ps: seq<Parameter>, f: Byte)
    requires k.Valid() && t.Valid() && AtRest(t) && ps != [] && |Joined(ps)| < TWO_64 - 4
    requires IsFinal(f) && (Joined(ps) == [] ==> f != BRACKET)
    ensures Read(t, ps, |ps|, |Joined(ps)| + 2).Valid()
    ensures PutAll(k, t, [ESC, BRACKET] + Joined(ps) + [f]) == FinalByte(k, Read(t, ps, |ps|, |Joined(ps)| + 2), f)
  {
    SequenceEnds(k, t, ps, f, [ESC, BRACKET] + Joined(ps) + [f], |Joined(ps)| + 1);
  }

  lemma SequenceEnds(k: Tables, t: Term, ps: seq<Parameter>, f: Byte, bytes: seq<Byte>, offset: nat)
    requires k.Valid() && t.Valid() && AtRest(t) && ps != [] && |Joined(ps)| < TWO_64 - 4
    requires IsFinal(f) && (Joined(ps) == [] ==> f != BRACKET)
    requires bytes == [ESC, BRACKET] + Joined(ps) + [f] && offset == |Joined(ps)| + 1
    ensures Read(t, ps, |ps|, offset + 1).Valid()
    ensures PutAll(k, t, bytes) == FinalByte(k, Read(t, ps, |ps|, offset + 1), f)
  {
    SequencePut(k, t, ps, f);
    PutFinal(k, t, Kept(ps, |ps|), Index(|ps|), Reading(ps, |ps|), offset, f);
  }

  /** The final bytes that change something besides the screen. */
  predicate TouchesParser(f: Byte) {
    var c := f as char;
    c == 'm' || c == 's' || c == 'u' || c == 'h' || c == 'l'
  }

  /** The value of an omitted number. */
  function Default(f: Byte): int {
    var c := f as char;
    if c == 'J' || c == 'K' || c == 'q' then 0 else 1
  }

  /** The screen after a complete sequence. */
  function Edited(s: Screen, f: Byte, v: seq<int>, n: nat): Screen
    requires s.Valid() && s.rows < TWO_32 && s.cols < TWO_32 && CsiValues(v)
  {
    CsiScreen(s.(scrollEnabled := false), f, v, n).(scrollEnabled := true)
  }

  lemma ScreenFinal(k: Tables, t: Term, f: Byte)
    requires k.Valid() && t.Valid() && !TouchesParser(f) && t.p.decPrivate.Off?
    ensures FinalByte(k, t, f)
         == Closed(ValueClosed(t).(v := Defaulted(t.v, ValueClosed(t).p.escValuesI, Default(f)),
                                   s := Edited(t.s, f, Defaulted(t.v, ValueClosed(t).p.escValuesI, Default(f)), ValueClosed(t).p.escValuesI)))
  {
  }

  /** The end of a sequence that has come to values v, the i-th being read or not. */
  lemma ClosedInside(t: Term, v: seq<int>, i: nat, rrr: Flag, n: nat, offset: nat, s: Screen, w: seq<int>)
    requires t.Valid() && AtRest(t) && CsiValues(v) && Indexed(i, rrr) && n == (if rrr.On? then i + 1 else i)
    ensures var u := Inside(t, v, i, rrr, offset);
      u.Valid() && u.p.decPrivate == t.p.decPrivate && u.s == t.s && u.v == v && ValueClosed(u).p.escValuesI == n
    ensures s.Valid() && CsiValues(w) && ValueClosed(Inside(t, v, i, rrr, offset)).(v := w, s := s).Valid() ==>
      Closed(ValueClosed(Inside(t, v, i, rrr, offset)).(v := w, s := s))
      == t.(s := s, v := w, p := t.p.(escValuesI := n, rrr := Off, escapeOffset := offset))
  {
  }

  /** Where a sequence that edits the screen ends: the screen is edited with exactly the numbers read, nothing else of
      the terminal changes that a later byte could see, and the parser is at rest again. */
  lemma ScreenFinalInside(k: Tables, t: Term, v: seq<int>, i: nat, rrr: Flag, n: nat, offset: nat, f: Byte, w: seq<int>,
                          s: Screen)
    requires k.Valid() && t.Valid() && AtRest(t) && CsiValues(v) && !TouchesParser(f) && t.p.decPrivate.Off?
    requires Indexed(i, rrr) && n == (if rrr.On? then i + 1 else i)
    requires w == Defaulted(v, n, Default(f)) && s == Edited(t.s, f, w, n)
    ensures Inside(t, v, i, rrr, offset).Valid()
    ensures FinalByte(k, Inside(t, v, i, rrr, offset), f)
         == t.(s := s, v := w, p := t.p.(escValuesI := n, rrr := Off, escapeOffset := offset))
  {
    ClosedInside(t, v, i, rrr, n, offset, s, w);
    ScreenFinal(k, Inside(t, v, i, rrr, offset), f);
  }

  // ---- The private marker ----

  const MARKER: Byte := 0x3f
  const CAN: Byte := 0x18

  /** CAN in a private sequence ends it, but leaves the marker set. */
  lemma MarkerLeft(k: Tables, t: Term)
    requires k.Valid() && t.Valid() && AtRest(t)
    ensures var u := PutAll(k, t, [ESC, BRACKET, MARKER, CAN]);
      u.s == t.s && AtRest(u) && u.p.decPrivate.On?
  {
    var u := t.(p := t.p.(decPrivate := On));
    PutEscape(k, t);
    PutBracket(k, t);
    InsideValid(t, Kept([], 0), 0, Off, 1);
    InsideValid(u, Kept([], 0), 0, Off, 2);
    PutMarker(k, t);
    PutCancel(k, Inside(u, Kept([], 0), 0, Off, 2));
    FourPut(k, t, ESC, BRACKET, MARKER, CAN);
  }

  lemma PutMarker(k: Tables, t: Term)
    requires k.Valid() && t.Valid() && AtRest(t)
    ensures Inside(t, Kept([], 0), 0, Off, 1).Valid()
    ensures Put(k, Inside(t, Kept([], 0), 0, Off, 1), MARKER) == Inside(t.(p := t.p.(decPrivate := On)), Kept([], 0), 0, Off, 2)
  {
    PutInside(k, t, Kept([], 0), 0, Off, 1, MARKER);
  }

  lemma PutCancel(k: Tables, t: Term)
    requires k.Valid() && t.Valid()
    ensures var r := Put(k, t, CAN); r.s == t.s && AtRest(r) && r.p.decPrivate == t.p.decPrivate
  {
  }

  lemma FourPut(k: Tables, t: Term, a: Byte, b: Byte, c: Byte, d: Byte)
    requires k.Valid() && t.Valid()
    ensures PutAll(k, t, [a, b, c, d]) == Put(k, Put(k, Put(k, Put(k, t, a), b), c), d)
  {
    var u := Put(k, t, a);
    PutAllAppend(k, t, [a], [b, c, d]);
    PutAllAppend(k, u, [b], [c, d]);
    PutAllAppend(k, Put(k, u, b), [c], [d]);
  }

  /** The screen after a private sequence: only the cursor is switched, by 25 h and 25 l. */
  function Switched(s: Screen, f: Byte, n: nat, v: seq<int>): Screen
    requires CsiValues(v)
  {
    if n > 0 && (f as char == 'h' || f as char == 'l') && v[0] == 25 then s.(cursorEnabled := f as char == 'h') else s
  }

  /** A sequence that finds the marker set runs as a private one, and clears the marker. */
  lemma MarkedFinalInside(k: Tables, t: Term, v: seq<int>, i: nat, rrr: Flag, n: nat, offset: nat, f: Byte, w: seq<int>)
    requires k.Valid() && t.Valid() && AtRest(t) && CsiValues(v) && t.p.decPrivate.On?
    requires Indexed(i, rrr) && n == (if rrr.On? then i + 1 else i) && w == Defaulted(v, n, Default(f))
    ensures Inside(t, v, i, rrr, offset).Valid()
    ensures FinalByte(k, Inside(t, v, i, rrr, offset), f)
         == t.(s := Switched(t.s, f, n, w), v := w,
               p := t.p.(escValuesI := n, rrr := Off, escapeOffset := offset, decPrivate := Off))
  {
    InsideValid(t, v, i, rrr, offset);
  }

  // ---- Whole sequences ----

  /** ESC [ p1 ; p2 ; ... f for an editing byte f edits the screen with the values of the parameters, and with the
      default value for those that are not given, provided that no private marker was left set. */
  lemma SequenceEdits(k: Tables, t: Term, ps: seq<Parameter>, f: Byte, n: nat, w: seq<int>, offset: nat)
    requires k.Valid() && t.Valid() && AtRest(t) && ps != [] && |Joined(ps)| < TWO_64 - 4
    requires IsFinal(f) && (Joined(ps) == [] ==> f != BRACKET) && !TouchesParser(f) && t.p.decPrivate.Off?
    requires n == Count(ps) && w == Defaulted(Kept(ps, |ps|), n, Default(f)) && offset == |Joined(ps)| + 2
    ensures PutAll(k, t, [ESC, BRACKET] + Joined(ps) + [f])
         == t.(s := Edited(t.s, f, w, n), v := w, p := t.p.(escValuesI := n, rrr := Off, escapeOffset := offset))
  {
    SequenceRuns(k, t, ps, f);
    ScreenFinalInside(k, t, Kept(ps, |ps|), Index(|ps|), Reading(ps, |ps|), n, offset, f, w, Edited(t.s, f, w, n));
  }

  /** With the marker left set it runs as a private sequence: 25 h and 25 l switch the cursor, everything else does
      nothing, and the marker is cleared. */
  lemma SequenceSwallowed(k: Tables, t: Term, ps: seq<Parameter>, f: Byte, n: nat, w: seq<int>, offset: nat)
    requires k.Valid() && t.Valid() && AtRest(t) && ps != [] && |Joined(ps)| < TWO_64 - 4
    requires IsFinal(f) && (Joined(ps) == [] ==> f != BRACKET) && t.p.decPrivate.On?
    requires n == Count(ps) && w == Defaulted(Kept(ps, |ps|), n, Default(f)) && offset == |Joined(ps)| + 2
    ensures PutAll(k, t, [ESC, BRACKET] + Joined(ps) + [f])
         == t.(s := Switched(t.s, f, n, w), v := w,
               p := t.p.(escValuesI := n, rrr := Off, escapeOffset := offset, decPrivate := Off))
  {
    SequenceRuns(k, t, ps, f);
    MarkedFinalInside(k, t, Kept(ps, |ps|), Index(|ps|), Reading(ps, |ps|), n, offset, f, w);
  }
}
