/**
 UTF-8 (RFC 3629, section 3): the parser's decoder inverts the encoder.
 */
module Utf8 {
  import opened Bits
  import opened Screens
  import opened Parsers

  /** The two-, three- or four-byte encoding of a code point outside ASCII. */
  function Encode(p: nat): seq<Byte>
    requires 0x80 <= p <= 0x10ffff
  {
    AllButLast(p) + [Tail(p, 1)]
  }

  function AllButLast(p: nat): seq<Byte>
    requires 0x80 <= p <= 0x10ffff
  {
    if p < 0x800 then [LeadOf(p)]
    else if p < 0x10000 then [LeadOf(p)] + [Tail(p, 0x40)]
    else [LeadOf(p)] + [Tail(p, 0x1000)] + [Tail(p, 0x40)]
  }

  /** The lead byte says how many bytes follow and carries the uppermost bits. */
  function LeadOf(p: nat): (c: Byte)
    requires 0x80 <= p <= 0x10ffff
    ensures 0xc0 <= c <= 0xf7
  {
    if p < 0x800 then 0xc0 + p / 0x40 else if p < 0x10000 then 0xe0 + p / 0x1000 else 0xf0 + p / 0x40000
  }

  lemma LeadDecoded(t: Term, p: nat)
    requires t.Valid() && 0x80 <= p <= 0x10ffff
    ensures Led(t, LeadOf(p)) ==
      if p < 0x800 then Decoding(t, 1, p / 0x40 * 0x40)
      else if p < 0x10000 then Decoding(t, 2, p / 0x1000 * 0x1000)
      else Decoding(t, 3, p / 0x40000 * 0x40000)
  {
    if p < 0x800 {
      assert (0xc0 + p / 0x40) % 0x20 == p / 0x40;
    } else if p < 0x10000 {
      assert (0xe0 + p / 0x1000) % 0x10 == p / 0x1000;
    } else {
      assert (0xf0 + p / 0x40000) % 0x08 == p / 0x40000;
    }
  }

  /** The continuation byte that carries the six bits of p at a weight. */
  function Tail(p: nat, weight: nat): Byte
    requires 1 <= weight
  {
    0x80 + p / weight % 0x40
  }

  /** Weight of a continuation byte's bits when `left` more bytes follow it. */
  function Weight(left: nat): nat
    requires left <= 2
  {
    if left == 0 then 1 else if left == 1 then 0x40 else 0x1000
  }

  /** The parser is not inside a UTF-8 sequence and will not discard the next byte. */
  predicate Idle(t: Term) {
    t.p.unicodeRemaining == 0 && t.p.discardNext.Off?
  }

  /** The parser with `left` bytes of a code point outstanding. */
  function Decoding(t: Term, left: nat, p: nat): (r: Term)
    requires t.Valid() && left <= 3
    ensures r.Valid()
  {
    t.(p := t.p.(unicodeRemaining := left, codePoint := p))
  }

  lemma BitsAdded(left: nat, high: nat, c: Byte)
    requires left <= 2 && IsContinuation(c) && high % (0x40 * Weight(left)) == 0
    ensures BitOr(high, (c % 0x40) * Pow2(6 * left)) == high + (c - 0x80) * Weight(left)
  {
    Powers();
    assert c % 0x40 == c - 0x80;
    if left == 0 {
      OrIsSum(high, c - 0x80, 6);
    } else if left == 1 {
      OrIsSum(high, (c - 0x80) * 0x40, 12);
    } else {
      OrIsSum(high, (c - 0x80) * 0x1000, 18);
    }
  }

  lemma PutContinuation(k: Tables, t: Term, c: Byte)
    requires k.Valid() && t.Valid() && t.p.discardNext.Off? && t.p.unicodeRemaining > 0 && IsContinuation(c)
    ensures Put(k, t, c) == ContinuationByte(k, t, c)
  {
  }

  lemma ContinuationAdds(k: Tables, t: Term, left: nat, high: nat, c: Byte)
    requires k.Valid() && t.Valid() && left <= 2 && IsContinuation(c) && high % (0x40 * Weight(left)) == 0
    ensures ContinuationByte(k, Decoding(t, left + 1, high), c) == Continued(k, t, left, high + (c - 0x80) * Weight(left))
  {
    BitsAdded(left, high, c);
  }

  /** A continuation byte adds its six bits to the sum; nothing else happens before the last one. */
  lemma Continue(k: Tables, t: Term, left: nat, high: nat, c: Byte)
    requires k.Valid() && t.Valid() && Idle(t) && left <= 2 && IsContinuation(c) && high % (0x40 * Weight(left)) == 0
    ensures Put(k, Decoding(t, left + 1, high), c) == Continued(k, t, left, high + (c - 0x80) * Weight(left))
  {
    PutContinuation(k, Decoding(t, left + 1, high), c);
    ContinuationAdds(k, t, left, high, c);
  }

  /** `left` bytes still to come and the value p so far, printed when it is complete. */
  function Continued(k: Tables, t: Term, left: nat, p: nat): Term
    requires k.Valid() && t.Valid() && left <= 2
  {
    if left > 0 then Decoding(t, left, p) else PrintCodePoint(k, Decoding(t, 0, p), p)
  }

  lemma Lead(k: Tables, t: Term, c: Byte)
    requires k.Valid() && t.Valid() && Idle(t) && 0xc0 <= c <= 0xf7
    ensures Put(k, t, c) == Led(t, c)
  {
  }

  function Led(t: Term, c: Byte): Term
    requires t.Valid()
  {
    if c <= 0xdf then Decoding(t, 1, c % 0x20 * 0x40)
    else if c <= 0xef then Decoding(t, 2, c % 0x10 * 0x1000)
    else Decoding(t, 3, c % 0x08 * 0x40000)
  }

  lemma Powers()
    ensures Pow2(0) == 1 && Pow2(6) == 0x40 && Pow2(12) == 0x1000 && Pow2(18) == 0x40000
  {
    assert Pow2(3) == 8;
    assert Pow2(6) == 0x40;
    assert Pow2(9) == 0x200;
    assert Pow2(12) == 0x1000;
    assert Pow2(15) == 0x8000;
  }

  /** What `Lead` and `Continue` say of a step function. */
  ghost predicate Decodes(f: (Term, Byte) -> Term, k: Tables, t: Term)
    requires k.Valid() && t.Valid()
  {
    && (forall c: Byte :: 0xc0 <= c <= 0xf7 ==> f(t, c) == Led(t, c))
    && (forall left: nat, high: nat, c: Byte :: Extends(f, k, t, left, high, c))
  }

  ghost predicate Extends(f: (Term, Byte) -> Term, k: Tables, t: Term, left: nat, high: nat, c: Byte)
    requires k.Valid() && t.Valid()
  {
    left <= 2 && IsContinuation(c) && high % (0x40 * Weight(left)) == 0 ==>
      f(Decoding(t, left + 1, high), c) == Continued(k, t, left, high + (c - 0x80) * Weight(left))
  }

  /** Having decoded `high`, one more byte of an encoding. */
  lemma Next(f: (Term, Byte) -> Term, k: Tables, t: Term, e: seq<Byte>, c: Byte, left: nat, high: nat, p: nat)
    requires k.Valid() && t.Valid() && Decodes(f, k, t)
    requires left <= 2 && high % (0x40 * Weight(left)) == 0 && IsContinuation(c)
    requires Run(f, t, e) == Decoding(t, left + 1, high) && p == high + (c - 0x80) * Weight(left)
    ensures Run(f, t, e + [c]) == Continued(k, t, left, p)
  {
    assert Extends(f, k, t, left, high, c);
    RunLast(f, t, e, c);
  }

  /** Having decoded the upper bits of p from the encoding's first bytes, the last two and the last one. */
  lemma LastOne(f: (Term, Byte) -> Term, k: Tables, t: Term, e: seq<Byte>, p: nat)
    requires k.Valid() && t.Valid() && Decodes(f, k, t) && Run(f, t, e) == Decoding(t, 1, p / 0x40 * 0x40)
    ensures Run(f, t, e + [Tail(p, 1)]) == Continued(k, t, 0, p)
  {
    Pieces(p);
    Next(f, k, t, e, Tail(p, 1), 0, p / 0x40 * 0x40, p);
  }

  lemma LastTwo(f: (Term, Byte) -> Term, k: Tables, t: Term, e: seq<Byte>, p: nat)
    requires k.Valid() && t.Valid() && Decodes(f, k, t) && Run(f, t, e) == Decoding(t, 2, p / 0x1000 * 0x1000)
    ensures Run(f, t, e + [Tail(p, 0x40)]) == Decoding(t, 1, p / 0x40 * 0x40)
    ensures Run(f, t, e + [Tail(p, 0x40)] + [Tail(p, 1)]) == Continued(k, t, 0, p)
  {
    Pieces(p);
    Next(f, k, t, e, Tail(p, 0x40), 1, p / 0x1000 * 0x1000, p / 0x40 * 0x40);
    LastOne(f, k, t, e + [Tail(p, 0x40)], p);
  }

  lemma LastThree(f: (Term, Byte) -> Term, k: Tables, t: Term, e: seq<Byte>, p: nat)
    requires k.Valid() && t.Valid() && Decodes(f, k, t) && Run(f, t, e) == Decoding(t, 3, p / 0x40000 * 0x40000)
    ensures Run(f, t, e + [Tail(p, 0x1000)]) == Decoding(t, 2, p / 0x1000 * 0x1000)
    ensures Run(f, t, e + [Tail(p, 0x1000)] + [Tail(p, 0x40)]) == Decoding(t, 1, p / 0x40 * 0x40)
    ensures Run(f, t, e + [Tail(p, 0x1000)] + [Tail(p, 0x40)] + [Tail(p, 1)]) == Continued(k, t, 0, p)
  {
    Pieces(p);
    Next(f, k, t, e, Tail(p, 0x1000), 2, p / 0x40000 * 0x40000, p / 0x1000 * 0x1000);
    LastTwo(f, k, t, e + [Tail(p, 0x1000)], p);
  }

  lemma DecodesWith(f: (Term, Byte) -> Term, k: Tables, t: Term, p: nat)
    requires k.Valid() && t.Valid() && Decodes(f, k, t) && 0x80 <= p <= 0x10ffff
    ensures Run(f, t, AllButLast(p)) == Decoding(t, 1, p / 0x40 * 0x40)
    ensures Run(f, t, AllButLast(p) + [Tail(p, 1)]) == Continued(k, t, 0, p)
  {
    var lead := LeadOf(p);
    LeadDecoded(t, p);
    RunLast(f, t, [], lead);
    assert [] + [lead] == [lead];
    if p < 0x800 {
      LastOne(f, k, t, [lead], p);
    } else if p < 0x10000 {
      LastTwo(f, k, t, [lead], p);
    } else {
      LastThree(f, k, t, [lead], p);
    }
  }

  lemma StepDecodes(k: Tables, t: Term)
    requires k.Valid() && t.Valid() && Idle(t)
    ensures Decodes(Step(k), k, t)
  {
    forall c: Byte | 0xc0 <= c <= 0xf7 ensures Step(k)(t, c) == Led(t, c) {
      Lead(k, t, c);
    }
    forall left: nat, high: nat, c: Byte ensures Extends(Step(k), k, t, left, high, c) {
      if left <= 2 && IsContinuation(c) && high % (0x40 * Weight(left)) == 0 {
        Continue(k, t, left, high, c);
      }
    }
  }

  /** Feeding the encoding of p to an idle parser decodes exactly p, in any parser mode, and prints it once;
      until the last byte nothing but the decoder's own two fields has changed. */
  lemma DecodesEncoded(k: Tables, t: Term, p: nat)
    requires k.Valid() && t.Valid() && Idle(t) && 0x80 <= p <= 0x10ffff
    ensures PutAll(k, t, Encode(p)) == PrintCodePoint(k, Decoding(t, 0, p), p)
    ensures PutAll(k, t, AllButLast(p)) == Decoding(t, 1, p / 0x40 * 0x40)
  {
    StepDecodes(k, t);
    DecodesWith(Step(k), k, t, p);
    PutAllIsRun(k, t, Encode(p));
    PutAllIsRun(k, t, AllButLast(p));
  }

  lemma Piece(p: nat, w: nat)
    requires w == 1 || w == 0x40 || w == 0x1000
    ensures p / (0x40 * w) * (0x40 * w) + (Tail(p, w) - 0x80) * w == p / w * w
    ensures p / (0x40 * w) * (0x40 * w) % (0x40 * w) == 0
  {
    if w == 1 {
    } else if w == 0x40 {
      assert p / 0x1000 == p / 0x40 / 0x40;
    } else {
      assert p / 0x40000 == p / 0x1000 / 0x40;
    }
  }

  /** Every tail adds its own six bits to the sum of those above it. */
  lemma Pieces(p: nat)
    ensures p / 0x40 * 0x40 + (Tail(p, 1) - 0x80) * 1 == p
    ensures p / 0x1000 * 0x1000 + (Tail(p, 0x40) - 0x80) * 0x40 == p / 0x40 * 0x40
    ensures p / 0x40000 * 0x40000 + (Tail(p, 0x1000) - 0x80) * 0x1000 == p / 0x1000 * 0x1000
    ensures p / 0x40 * 0x40 % 0x40 == 0 && p / 0x1000 * 0x1000 % 0x1000 == 0 && p / 0x40000 * 0x40000 % 0x40000 == 0
  {
    Piece(p, 1);
    Piece(p, 0x40);
    Piece(p, 0x1000);
  }

  /** A byte that cannot continue abandons the partial character: it acts as on a parser with none pending. */
  lemma PartialCharacterAbandoned(k: Tables, t: Term, left: nat, p: nat, c: Byte)
    requires k.Valid() && t.Valid() && Idle(t) && 1 <= left <= 3 && !IsContinuation(c)
    ensures Put(k, Decoding(t, left, p), c) == Put(k, Decoding(t, 0, p), c)
  {
  }
}
