/** IP addresses, prefixes and the texts that name them
    (section 3.1 of RFC 4632; section 2.5.5.2 of RFC 4291). */
module Addresses {
  import opened Orders

  type U32 = x: int | 0 <= x < 0x1_0000_0000
  type U128 = x: int | 0 <= x < 0x1_0000_0000_0000_0000_0000_0000_0000_0000

  /** An address of either family; a version 6 address may carry a zone. */
  datatype Addr = V4(v4: U32) | V6(v6: U128, zone: string) {
    function BitLen(): nat {
      if V4? then 32 else 128
    }

    function Value(): nat {
      if V4? then v4 else v6
    }

    /** The version 4 address inside an IPv4-mapped one, else itself. */
    function Unmap(): Addr {
      if V6? && v6 / 0x1_0000_0000 == 0xffff then V4(v6 % 0x1_0000_0000) else this
    }

    function WithoutZone(): Addr {
      if V6? then V6(v6, "") else this
    }
  }

  function Pow2(n: nat): (r: nat)
    ensures r > 0
  {
    if n == 0 then 1 else 2 * Pow2(n - 1)
  }

  datatype RawPrefix = Prefix(addr: Addr, bits: nat)

  /** What netip.ParsePrefix accepts: a length within the family, no zone. */
  type Prefix = p: RawPrefix | p.bits <= p.addr.BitLen() && p.addr == p.addr.WithoutZone()
    witness Prefix(V4(0), 0)

  /** The number of addresses in a prefix. */
  function Block(p: Prefix): (r: nat)
    ensures r > 0
  {
    Pow2(p.addr.BitLen() - p.bits)
  }

  function MaskDown(v: nat, b: nat): (r: nat)
    requires b > 0
    ensures r <= v
  {
    v - v % b
  }

  function Masked(p: Prefix): (r: Prefix)
    ensures r.bits == p.bits && r.addr.V4? == p.addr.V4?
  {
    var v := MaskDown(p.addr.Value(), Block(p));
    Prefix(if p.addr.V4? then V4(v) else V6(v, ""), p.bits)
  }

  /** netip's Contains: same family, no zone, same leading bits. */
  predicate Contains(p: Prefix, a: Addr) {
    && a.V4? == p.addr.V4?
    && a == a.WithoutZone()
    && a.Value() / Block(p) == p.addr.Value() / Block(p)
  }

  function HostRoute(a: Addr): Prefix {
    var u := a.Unmap().WithoutZone();
    Prefix(u, u.BitLen())
  }

  lemma {:induction false} StepMultiple(b: nat, x: nat, y: nat)
    requires x < y
    ensures b * x + b <= b * y
  {
    if x + 1 < y { StepMultiple(b, x, y - 1); }
    assert b * y == b * (y - 1) + b;
  }

  lemma QuotientUnique(b: nat, q: nat, r: nat, d: nat, e: nat)
    requires r < b && e < b && b * q + r == b * d + e
    ensures q == d && r == e
  {
    if q < d { StepMultiple(b, q, d); } else if d < q { StepMultiple(b, d, q); }
  }

  lemma DivWithin(q: nat, b: nat, r: nat)
    requires r < b
    ensures (b * q + r) / b == q && (b * q + r) % b == r
  {
    var v := b * q + r;
    assert v == b * (v / b) + v % b;
    QuotientUnique(b, q, r, v / b, v % b);
  }

  lemma MaskArithmetic(v: nat, b: nat)
    requires b > 0
    ensures (v - v % b) % b == 0 && (v - v % b) / b == v / b && v - v % b == b * (v / b)
  {
    assert v == b * (v / b) + v % b;
    DivWithin(v / b, b, 0);
  }

  /** Masking changes no address a prefix covers. */
  lemma MaskedKeepsMeaning(p: Prefix, a: Addr)
    ensures Contains(Masked(p), a) == Contains(p, a)
  {
    MaskArithmetic(p.addr.Value(), Block(p));
  }

  lemma MaskedIdempotent(p: Prefix)
    ensures Masked(Masked(p)) == Masked(p)
  {
    MaskArithmetic(p.addr.Value(), Block(p));
  }

  /** A host route covers its own address, unmapped and without zone, only. */
  lemma HostRouteExact(a: Addr, b: Addr)
    ensures Contains(HostRoute(a), b) <==> b == a.Unmap().WithoutZone()
    ensures Masked(HostRoute(a)) == HostRoute(a)
  {
    assert Block(HostRoute(a)) == 1;
  }

  lemma {:induction false} Pow2Grows(m: nat, n: nat)
    requires m < n
    ensures 2 * Pow2(m) <= Pow2(n)
  {
    if m + 1 < n { Pow2Grows(m, n - 1); }
  }

  function At(p: Prefix, v: nat): Addr
    requires v < (if p.addr.V4? then 0x1_0000_0000 else 0x1_0000_0000_0000_0000_0000_0000_0000_0000)
  {
    if p.addr.V4? then V4(v) else V6(v, "")
  }

  lemma Pow2Concrete()
    ensures Pow2(32) == 0x1_0000_0000
    ensures Pow2(128) == 0x1_0000_0000_0000_0000_0000_0000_0000_0000
  {
    Pow2Small();
    Pow2Sum(16, 16);
    Pow2Sum(32, 32);
    Pow2Sum(64, 64);
  }

  lemma Pow2Small()
    ensures Pow2(16) == 0x1_0000
  {
    Pow2Sum(4, 4);
    Pow2Sum(8, 8);
    assert Pow2(4) == 16;
  }

  lemma {:induction false} Pow2Sum(m: nat, n: nat)
    ensures Pow2(m + n) == Pow2(m) * Pow2(n)
  {
    if n != 0 {
      Pow2Sum(m, n - 1);
      assert Pow2(m + n) == 2 * Pow2(m + (n - 1));
    }
  }

  lemma BlockFits(q: nat, b: nat, n: nat, top: nat)
    requires b > 0 && b * q < top && n * b == top
    ensures b * q + b <= top
  {
    assert n * b == b * n;
    if q < n { StepMultiple(b, q, n); } else if q > n { StepMultiple(b, n, q); }
  }

  /** The last address of a masked prefix exists and is covered. */
  lemma LastCovered(p: Prefix)
    requires Masked(p) == p
    ensures p.addr.Value() + Block(p) - 1 < (if p.addr.V4? then 0x1_0000_0000
        else 0x1_0000_0000_0000_0000_0000_0000_0000_0000)
    ensures Contains(p, At(p, p.addr.Value() + Block(p) - 1)) && Contains(p, p.addr)
  {
    var w, b, v := p.addr.BitLen(), Block(p), p.addr.Value();
    MaskArithmetic(v, b);
    Pow2Concrete();
    Pow2Sum(p.bits, w - p.bits);
    BlockFits(v / b, b, Pow2(p.bits), Pow2(w));
    DivWithin(v / b, b, b - 1);
  }

  /** Normalized prefixes are canonical names: two that cover the same
      addresses are the same prefix. */
  lemma MaskedPrefixUnique(p: Prefix, q: Prefix)
    requires Masked(p) == p && Masked(q) == q
    requires forall a: Addr :: Contains(p, a) == Contains(q, a)
    ensures p == q
  {
    LastCovered(p);
    LastCovered(q);
    assert Contains(q, p.addr);
    if p.bits < q.bits {
      NotWider(p, q);
    } else if q.bits < p.bits {
      NotWider(q, p);
    }
    MaskArithmetic(p.addr.Value(), Block(p));
    MaskArithmetic(q.addr.Value(), Block(q));
  }

  lemma Apart(v: nat, w: nat, b: nat)
    requires b > 0 && v / b == w / b
    ensures w - v < b
  {
    assert v == b * (v / b) + v % b && w == b * (w / b) + w % b;
  }

  /** A masked prefix is never inside a strictly longer one. */
  lemma NotWider(p: Prefix, q: Prefix)
    requires Masked(p) == p && p.bits < q.bits && p.addr.V4? == q.addr.V4?
    ensures exists a: Addr :: Contains(p, a) && !Contains(q, a)
  {
    LastCovered(p);
    var last := At(p, p.addr.Value() + Block(p) - 1);
    Pow2Grows(p.addr.BitLen() - q.bits, p.addr.BitLen() - p.bits);
    if Contains(q, p.addr) && Contains(q, last) {
      Apart(p.addr.Value(), last.Value(), Block(q));
      assert false;
    }
    assert Contains(p, last) && Contains(p, p.addr);
  }

  /** A text that should name a prefix, by what it parses as after
      surrounding white space is trimmed. */
  datatype Text =
    | PrefixText(prefix: Prefix)
    | AddrText(addr: Addr)
    | OtherText(text: string)

  predicate IsSpace(c: char) {
    var n := c as int;
    || 9 <= n <= 13 || n == 32 || n == 0x85 || n == 0xA0 || n == 0x1680
    || 0x2000 <= n <= 0x200A || n == 0x2028 || n == 0x2029 || n == 0x202F || n == 0x205F || n == 0x3000
  }

  function TrimLeft(s: string): (r: string)
    ensures r == "" || !IsSpace(r[0])
    ensures !(s != "" && IsSpace(s[0])) ==> r == s
    ensures s != "" && !IsSpace(s[|s| - 1]) ==> r != "" && r[|r| - 1] == s[|s| - 1]
  {
    if s != "" && IsSpace(s[0]) then TrimLeft(s[1..]) else s
  }

  function TrimRight(s: string): (r: string)
    ensures r == "" || !IsSpace(r[|r| - 1])
    ensures r <= s
    ensures !(s != "" && IsSpace(s[|s| - 1])) ==> r == s
  {
    if s != "" && IsSpace(s[|s| - 1]) then TrimRight(s[..|s| - 1]) else s
  }

  function TrimSpace(s: string): string {
    TrimLeft(TrimRight(s))
  }

  lemma TrimSpaceIdempotent(s: string)
    ensures TrimSpace(TrimSpace(s)) == TrimSpace(s)
  {
    var t := TrimRight(s);
    if t == "" {
    } else {
      var u := TrimLeft(t);
      assert TrimRight(u) == u;
    }
  }

  /** The canonical text of a prefix. Only a bare address is unmapped: a
      prefix written in IPv4-mapped form stays a version 6 prefix. */
  function NormalizeCIDR(t: Text): Text {
    match t
    case PrefixText(p) => PrefixText(Masked(p))
    case AddrText(a) => PrefixText(HostRoute(a))
    case OtherText(s) => OtherText(TrimSpace(s))
  }

  /** The sources a peer text admits, by what it names. */
  predicate Covers(t: Text, src: Addr) {
    match t
    case PrefixText(p) => Contains(p, src)
    case AddrText(a) => src == a.Unmap().WithoutZone()
    case OtherText(_) => false
  }

  lemma NormalizeIdempotent(t: Text)
    ensures NormalizeCIDR(NormalizeCIDR(t)) == NormalizeCIDR(t)
  {
    match t
    case PrefixText(p) => MaskedIdempotent(p);
    case AddrText(a) => HostRouteExact(a, a);
    case OtherText(s) => TrimSpaceIdempotent(s);
  }

  /** Normalizing a peer text changes no source it admits. */
  lemma NormalizeKeepsMeaning(t: Text, src: Addr)
    ensures Covers(NormalizeCIDR(t), src) == Covers(t, src)
  {
    match t
    case PrefixText(p) => MaskedKeepsMeaning(p, src);
    case AddrText(a) => HostRouteExact(a, src);
    case OtherText(s) =>
  }

  /** Two normalized texts that parse and admit the same sources are equal. */
  lemma NormalizedTextUnique(t: Text, u: Text)
    requires !t.OtherText? && !u.OtherText?
    requires forall a: Addr :: Covers(t, a) == Covers(u, a)
    ensures NormalizeCIDR(t) == NormalizeCIDR(u)
  {
    NormalizeIdempotent(t);
    NormalizeIdempotent(u);
    forall a: Addr ensures Contains(NormalizeCIDR(t).prefix, a) == Contains(NormalizeCIDR(u).prefix, a) {
      NormalizeKeepsMeaning(t, a);
      NormalizeKeepsMeaning(u, a);
    }
    MaskedPrefixUnique(NormalizeCIDR(t).prefix, NormalizeCIDR(u).prefix);
  }

  function TextKey(t: Text): seq<int> {
    match t
    case PrefixText(p) => [0, p.addr.BitLen(), p.addr.Value(), p.bits]
    case AddrText(a) => [1, a.BitLen(), a.Value()] + (if a.V6? then Codes(a.zone) else [])
    case OtherText(s) => [2] + Codes(s)
  }

  /** The order canonical peers are listed in. */
  predicate TextLess(a: Text, b: Text) {
    SeqLess(TextKey(a), TextKey(b))
  }

  lemma TextKeyInjective(a: Text, b: Text)
    requires TextKey(a) == TextKey(b)
    ensures a == b
  {
    assert TextKey(a)[0] == TextKey(b)[0];
    match a
    case PrefixText(p) =>
      assert TextKey(a)[1] == TextKey(b)[1] && TextKey(a)[2] == TextKey(b)[2] && TextKey(a)[3] == TextKey(b)[3];
    case AddrText(x) =>
      assert TextKey(a)[1] == TextKey(b)[1] && TextKey(a)[2] == TextKey(b)[2];
      if x.V6? {
        assert TextKey(a)[3..] == Codes(x.zone) && TextKey(b)[3..] == Codes(b.addr.zone);
        CodesInjective(x.zone, b.addr.zone);
      }
    case OtherText(s) =>
      assert TextKey(a)[1..] == Codes(s) && TextKey(b)[1..] == Codes(b.text);
      CodesInjective(s, b.text);
  }

  lemma TextOrder()
    ensures StrictOrder(TextLess)
  {
    forall x, y | TextKey(x) == TextKey(y) ensures x == y { TextKeyInjective(x, y); }
    KeyedOrder(TextKey, TextLess);
  }

  function AddrKey(a: Addr): seq<int> {
    [a.BitLen(), a.Value()] + (if a.V6? then Codes(a.zone) else [])
  }

  /** Addr.Less: by family, then number, then zone. */
  predicate AddrLess(a: Addr, b: Addr) {
    SeqLess(AddrKey(a), AddrKey(b))
  }

  lemma AddrOrder()
    ensures StrictOrder(AddrLess)
  {
    forall x, y | AddrKey(x) == AddrKey(y) ensures x == y {
      assert AddrKey(x)[0] == AddrKey(y)[0] && AddrKey(x)[1] == AddrKey(y)[1];
      if x.V6? {
        assert AddrKey(x)[2..] == Codes(x.zone) && AddrKey(y)[2..] == Codes(y.zone);
        CodesInjective(x.zone, y.zone);
      }
    }
    KeyedOrder(AddrKey, AddrLess);
  }

  // ----- What the operations do to the numbers -----

  /** The addresses ::ffff:0:0/96 are the version 4 ones, zone or no zone, and
      no other address is changed. */
  lemma UnmapSays(x: U32, a: Addr, zone: string)
    ensures V6(0xffff_0000_0000 + x, zone).Unmap() == V4(x)
    ensures a.V4? || a.v6 < 0xffff_0000_0000 || a.v6 > 0xffff_ffff_ffff ==> a.Unmap() == a
    ensures V4(x).WithoutZone() == V4(x) && (a.V6? ==> a.WithoutZone() == V6(a.v6, ""))
  {
  }

  /** v lies in the q-th block of b numbers. */
  predicate InBlock(v: nat, q: nat, b: nat) {
    q * b <= v < (q + 1) * b
  }

  ghost predicate ShareBlock(v: nat, w: nat, b: nat) {
    exists q: nat :: InBlock(v, q, b) && InBlock(w, q, b)
  }

  /** A prefix contains the addresses of its family, without a zone, of one block
      of two to the power of the bits it leaves: the block its address lies in. */
  lemma ContainsRange(p: Prefix, a: Addr)
    ensures Contains(p, a) <==>
              && a.V4? == p.addr.V4? && (a.V6? ==> a.zone == "")
              && ShareBlock(a.Value(), p.addr.Value(), Pow2(p.addr.BitLen() - p.bits))
  {
    hide Pow2, ShareBlock;
    var size := Pow2(p.addr.BitLen() - p.bits);
    assert Block(p) == size;
    assert a == a.WithoutZone() <==> (a.V6? ==> a.zone == "");
    SameBlock(a.Value(), p.addr.Value(), size);
    assert Contains(p, a) <==>
      a.V4? == p.addr.V4? && a == a.WithoutZone() && a.Value() / size == p.addr.Value() / size;
  }

  lemma SameBlock(v: nat, w: nat, b: nat)
    requires b > 0
    ensures v / b == w / b <==> ShareBlock(v, w, b)
  {
    InOwnBlock(v, b);
    InOwnBlock(w, b);
    forall q: nat | InBlock(v, q, b) && InBlock(w, q, b) ensures v / b == w / b {
      RangeQuotient(v, b, q);
      RangeQuotient(w, b, q);
    }
  }

  lemma InOwnBlock(v: nat, b: nat)
    requires b > 0
    ensures InBlock(v, v / b, b)
  {
    QuotientRange(v, b);
  }

  lemma QuotientRange(v: nat, b: nat)
    requires b > 0
    ensures (v / b) * b <= v < (v / b + 1) * b
  {
    assert v == b * (v / b) + v % b;
  }

  lemma RangeQuotient(v: nat, b: nat, q: nat)
    requires b > 0 && InBlock(v, q, b)
    ensures v / b == q
  {
    QuotientRange(v, b);
    var d := v / b;
    if d < q {
      StepTimes(d + 1, q, b);
    } else if d > q {
      StepTimes(q + 1, d, b);
    }
  }

  lemma StepTimes(m: nat, n: nat, b: nat)
    requires m <= n
    ensures m * b <= n * b
  {
  }

  /** Trimming takes white space from both ends and nothing else. */
  lemma TrimSpaceSays(s: string)
    ensures exists left, right :: s == left + TrimSpace(s) + right
              && (forall c :: c in left || c in right ==> IsSpace(c))
    ensures var r := TrimSpace(s); r != "" ==> !IsSpace(r[0]) && !IsSpace(r[|r| - 1])
  {
    var right := TrimRightSays(s);
    var t := TrimRight(s);
    var left := TrimLeftSays(t);
    assert s == left + TrimSpace(s) + right;
    if TrimSpace(s) != "" && t != "" {
      assert !IsSpace(t[|t| - 1]);
    }
  }

  lemma {:induction false} TrimRightSays(s: string) returns (right: string)
    ensures s == TrimRight(s) + right && forall c :: c in right ==> IsSpace(c)
  {
    right := "";
    if s != "" && IsSpace(s[|s| - 1]) {
      right := TrimRightSays(s[..|s| - 1]);
      right := right + [s[|s| - 1]];
    }
  }

  lemma {:induction false} TrimLeftSays(s: string) returns (left: string)
    ensures s == left + TrimLeft(s) && forall c :: c in left ==> IsSpace(c)
  {
    left := "";
    if s != "" && IsSpace(s[0]) {
      left := TrimLeftSays(s[1..]);
      left := [s[0]] + left;
      assert s == [s[0]] + s[1..];
    }
  }

  /** A text that names no prefix admits nobody. */
  lemma UnparsedCoversNothing(s: string, src: Addr)
    ensures !Covers(OtherText(s), src) && NormalizeCIDR(OtherText(s)).OtherText?
  {
  }
}
