/** The polynomial key hashes: hashBuf, hashString and iHashString. */
module KeyHash {
  import opened ShmTypes

  /** The accumulator h := h * 31 + x over xs, each step taken modulo 2^32
      (the unsigned wrap-around of LsShmHKey). */
  function Poly31(xs: seq<int>): (h: U32)
  {
    if xs == [] then 0 else (Poly31(xs[..|xs| - 1]) * 31 + xs[|xs| - 1]) % Two32
  }

  function Pow31(n: nat): (p: nat)
  {
    if n == 0 then 1 else 31 * Pow31(n - 1)
  }

  /** The same polynomial with no wrap-around: sum of xs[i] * 31^(n-1-i). */
  function Weighted(xs: seq<int>): int
  {
    if xs == [] then 0 else xs[0] * Pow31(|xs| - 1) + Weighted(xs[1..])
  }

  lemma {:induction false} WeightedSnoc(xs: seq<int>, x: int)
    ensures Weighted(xs + [x]) == Weighted(xs) * 31 + x
  {
    if xs == [] {
      assert Weighted([x]) == x * Pow31(0) + Weighted([]);
    } else {
      calc {
        Weighted(xs + [x]);
        { assert (xs + [x])[1..] == xs[1..] + [x]; }
        xs[0] * Pow31(|xs|) + Weighted(xs[1..] + [x]);
        { WeightedSnoc(xs[1..], x); }
        xs[0] * Pow31(|xs|) + Weighted(xs[1..]) * 31 + x;
        { assert Pow31(|xs|) == 31 * Pow31(|xs| - 1); }
        (xs[0] * Pow31(|xs| - 1) + Weighted(xs[1..])) * 31 + x;
      }
    }
  }

  lemma ModStep(a: int, b: int)
    ensures ((a % Two32) * 31 + b) % Two32 == (a * 31 + b) % Two32
  {
    var q := a / Two32;
    assert a == q * Two32 + a % Two32;
    assert a * 31 + b == (a % Two32) * 31 + b + (q * 31) * Two32;
  }

  /** The wrapped accumulator is the exact polynomial reduced modulo 2^32. */
  lemma {:induction false} Poly31IsPolynomialMod(xs: seq<int>)
    ensures Poly31(xs) == Weighted(xs) % Two32
  {
    if xs != [] {
      var init := xs[..|xs| - 1];
      var last := xs[|xs| - 1];
      assert xs == init + [last];
      Poly31IsPolynomialMod(init);
      WeightedSnoc(init, last);
      ModStep(Weighted(init), last);
    }
  }

  /** A byte read through a (signed) char: 128..255 become -128..-1. */
  function AsSignedChar(b: Byte): int
  {
    if b < 128 then b else b - 256
  }

  function SignedChars(bs: seq<Byte>): (cs: seq<int>)
    ensures |cs| == |bs|
  {
    seq(|bs|, i requires 0 <= i < |bs| => AsSignedChar(bs[i]))
  }

  /** 'A'..'Z' lowered, as iHashString does before hashing. */
  function LowerByte(b: Byte): Byte
  {
    if 'A' as int <= b <= 'Z' as int then b + ('a' as int - 'A' as int) else b
  }

  function LowerAscii(bs: seq<Byte>): (ls: seq<Byte>)
    ensures |ls| == |bs|
  {
    seq(|bs|, i requires 0 <= i < |bs| => LowerByte(bs[i]))
  }

  /** The length of the NUL-terminated string at the start of s. */
  function CStrLen(s: seq<Byte>): (n: nat)
    requires 0 in s
    ensures n < |s| && s[n] == 0
    ensures forall i :: 0 <= i < n ==> s[i] != 0
  {
    if s[0] == 0 then 0 else CStrLen(s[1..]) + 1
  }

  /** The characters hashString reads: those before the first NUL. */
  function CString(s: seq<Byte>): seq<Byte>
    requires 0 in s
  {
    s[..CStrLen(s)]
  }

  /** What hashString computes for the buffer s. */
  function StringHash(s: seq<Byte>): U32
    requires 0 in s
  {
    Poly31(SignedChars(CString(s)))
  }

  /** What iHashString computes for the buffer s. */
  function CaselessStringHash(s: seq<Byte>): U32
    requires 0 in s
  {
    Poly31(SignedChars(LowerAscii(CString(s))))
  }

  /** hashBuf: the accumulator over all len bytes of the buffer. */
  method HashBuf(buf: seq<Byte>) returns (h: U32)
    ensures h == Poly31(buf)
  {
    h := 0;
    var p := 0;
    while p < |buf|
      invariant 0 <= p <= |buf|
      invariant h == Poly31(buf[..p])
    {
      assert buf[..p + 1][..p] == buf[..p];
      h := (h * 31 + buf[p]) % Two32;
      p := p + 1;
    }
    assert buf[..p] == buf;
  }

  /** hashString: the accumulator over the characters before the NUL, each
      read as a signed char; the length argument of the source is unused. */
  method HashString(s: seq<Byte>) returns (h: U32)
    requires 0 in s
    ensures h == StringHash(s)
  {
    h := 0;
    var p := 0;
    var ch := s[p];
    while ch != 0
      invariant 0 <= p <= CStrLen(s)
      invariant ch == s[p]
      invariant h == Poly31(SignedChars(s[..p]))
      decreases CStrLen(s) - p
    {
      assert SignedChars(s[..p + 1])[..p] == SignedChars(s[..p]);
      h := (h * 31 + AsSignedChar(ch)) % Two32;
      p := p + 1;
      ch := s[p];
    }
  }

  /** iHashString: as hashString, with 'A'..'Z' lowered before each step. */
  method CaselessHashString(s: seq<Byte>) returns (h: U32)
    requires 0 in s
    ensures h == CaselessStringHash(s)
  {
    h := 0;
    var p := 0;
    var ch := s[p];
    while ch != 0
      invariant 0 <= p <= CStrLen(s)
      invariant ch == s[p]
      invariant h == Poly31(SignedChars(LowerAscii(s[..p])))
      decreases CStrLen(s) - p
    {
      assert SignedChars(LowerAscii(s[..p + 1]))[..p] == SignedChars(LowerAscii(s[..p]));
      var c := ch;
      if 'A' as int <= c <= 'Z' as int {
        c := c + ('a' as int - 'A' as int);
      }
      h := (h * 31 + AsSignedChar(c)) % Two32;
      p := p + 1;
      ch := s[p];
    }
  }

  /** Lowering neither creates nor removes a NUL, so it keeps the string length. */
  lemma {:induction false} LowerKeepsCStrLen(s: seq<Byte>)
    requires 0 in s
    ensures 0 in LowerAscii(s)
    ensures CStrLen(LowerAscii(s)) == CStrLen(s)
    ensures CString(LowerAscii(s)) == LowerAscii(CString(s))
  {
    var n := CStrLen(s);
    var l := LowerAscii(s);
    assert l[n] == 0;
    if s[0] != 0 {
      assert 0 in s[1..];
      LowerKeepsCStrLen(s[1..]);
      assert LowerAscii(s[1..]) == l[1..];
    }
  }

  /** iHashString(s) is hashString of s with 'A'..'Z' lowered. */
  lemma CaselessHashIsHashOfLowered(s: seq<Byte>)
    requires 0 in s
    ensures 0 in LowerAscii(s)
    ensures CaselessStringHash(s) == StringHash(LowerAscii(s))
  {
    LowerKeepsCStrLen(s);
  }

  /** On a string with no high-bit byte, hashString equals hashBuf over the
      characters before the NUL. */
  lemma AsciiStringHashIsBufHash(s: seq<Byte>)
    requires 0 in s
    requires forall i :: 0 <= i < |s| ==> s[i] < 128
    ensures StringHash(s) == Poly31(CString(s))
  {
    assert SignedChars(CString(s)) == CString(s);
  }
}
