/** Base64 with the standard alphabet and `=` padding (section 4 of
    RFC 4648), as `base64.b64encode` produces it and as `base64.b64decode`
    reads it in its default non-strict mode, which drops bytes that are
    neither alphabet symbols nor `=` before decoding. */
module Base64 {
  import opened Values

  /** The padding symbol `=`. */
  const PAD: Byte := 0x3D

  /** The 64 symbols A-Z, a-z, 0-9, `+`, `/` as bytes. */
  predicate IsSymbol(b: Byte) {
    (0x41 <= b <= 0x5A) || (0x61 <= b <= 0x7A) || (0x30 <= b <= 0x39) || b == 0x2B || b == 0x2F
  }

  /** The symbol that stands for the 6-bit value `v`. */
  function Symbol(v: int): (b: Byte)
    requires 0 <= v < 64
    ensures IsSymbol(b)
  {
    if v < 26 then 0x41 + v
    else if v < 52 then 0x61 + (v - 26)
    else if v < 62 then 0x30 + (v - 52)
    else if v == 62 then 0x2B
    else 0x2F
  }

  /** The 6-bit value a symbol stands for; the inverse of `Symbol`. */
  function ValueOf(b: Byte): (v: int)
    requires IsSymbol(b)
    ensures 0 <= v < 64 && Symbol(v) == b
  {
    if 0x41 <= b <= 0x5A then b - 0x41
    else if 0x61 <= b <= 0x7A then b - 0x61 + 26
    else if 0x30 <= b <= 0x39 then b - 0x30 + 52
    else if b == 0x2B then 62
    else 63
  }

  lemma ValueOfSymbol(v: int)
    requires 0 <= v < 64
    ensures ValueOf(Symbol(v)) == v
  {
  }

  predicate IsSymbolOrPad(b: Byte) {
    IsSymbol(b) || b == PAD
  }

  /** What non-strict decoding keeps of its input: symbols and `=`. */
  function Discard(s: seq<Byte>): (r: seq<Byte>)
    ensures |r| <= |s|
    ensures forall i :: 0 <= i < |r| ==> IsSymbolOrPad(r[i])
  {
    if s == [] then []
    else if IsSymbolOrPad(s[0]) then [s[0]] + Discard(s[1..])
    else Discard(s[1..])
  }

  lemma {:induction false} DiscardKeepsClean(s: seq<Byte>)
    requires forall i :: 0 <= i < |s| ==> IsSymbolOrPad(s[i])
    ensures Discard(s) == s
  {
    if s != [] {
      DiscardKeepsClean(s[1..]);
      assert [s[0]] + s[1..] == s;
    }
  }

  /** Discarding works piece by piece: the kept bytes of `a + b` are those
      of `a` followed by those of `b`. */
  lemma {:induction false} DiscardAppend(a: seq<Byte>, b: seq<Byte>)
    ensures Discard(a + b) == Discard(a) + Discard(b)
  {
    if a != [] {
      var ab := a + b;
      assert ab[0] == a[0] && ab[1..] == a[1..] + b;
      DiscardAppend(a[1..], b);
      if IsSymbolOrPad(a[0]) {
        assert Discard(ab) == [a[0]] + Discard(a[1..] + b);
      } else {
        assert Discard(ab) == Discard(a[1..] + b);
      }
    } else {
      assert a + b == b;
    }
  }

  /** A single byte is kept exactly when it is a symbol or `=`. */
  lemma DiscardOne(x: Byte)
    ensures IsSymbolOrPad(x) ==> Discard([x]) == [x]
    ensures !IsSymbolOrPad(x) ==> Discard([x]) == []
  {
    assert [x][1..] == [];
  }

  /** The three bytes carried by four symbols. */
  function DecodeGroup(a: Byte, b: Byte, c: Byte, d: Byte): (r: seq<Byte>)
    requires IsSymbol(a) && IsSymbol(b) && IsSymbol(c) && IsSymbol(d)
    ensures |r| == 3
  {
    var v0, v1, v2, v3 := ValueOf(a), ValueOf(b), ValueOf(c), ValueOf(d);
    [v0 * 4 + v1 / 16, (v1 % 16) * 16 + v2 / 4, (v2 % 4) * 64 + v3]
  }

  /** The last quantum, which may end in `==` (one byte) or `=` (two bytes).
      The leftover low bits of the last symbol are not checked, as in the
      non-strict decoder. */
  function DecodeLast(q: seq<Byte>): (r: Option<seq<Byte>>)
    requires |q| == 4
    ensures r.Some? ==> 1 <= |r.value| <= 3
  {
    if !IsSymbol(q[0]) || !IsSymbol(q[1]) then None
    else if IsSymbol(q[2]) && IsSymbol(q[3]) then Some(DecodeGroup(q[0], q[1], q[2], q[3]))
    else if IsSymbol(q[2]) && q[3] == PAD then Some(DecodeGroup(q[0], q[1], q[2], 0x41)[..2])
    else if q[2] == PAD && q[3] == PAD then Some(DecodeGroup(q[0], q[1], 0x41, 0x41)[..1])
    else None
  }

  /** Decoding of symbols and padding: whole quanta of four, padding only at
      the very end; anything else is an error (`binascii.Error`). */
  function DecodeQuanta(s: seq<Byte>): (r: Option<seq<Byte>>)
    ensures r.Some? ==> |s| == 4 * ((|r.value| + 2) / 3)
    decreases |s|
  {
    if s == [] then Some([])
    else if |s| < 4 then None
    else if |s| == 4 then DecodeLast(s)
    else if !(IsSymbol(s[0]) && IsSymbol(s[1]) && IsSymbol(s[2]) && IsSymbol(s[3])) then None
    else
      match DecodeQuanta(s[4..])
      case None => None
      case Some(rest) => Some(DecodeGroup(s[0], s[1], s[2], s[3]) + rest)
  }

  /** What decoding accepts: symbols everywhere but in the last two places,
      and a `=` in the next-to-last place only when the last is `=` too. */
  lemma {:induction false} DecodeQuantaAccepts(s: seq<Byte>)
    requires DecodeQuanta(s).Some?
    ensures forall i :: 0 <= i < |s| - 2 ==> IsSymbol(s[i])
    ensures |s| >= 2 && s[|s| - 2] == PAD ==> s[|s| - 1] == PAD
    decreases |s|
  {
    if |s| > 4 {
      DecodeQuantaAccepts(s[4..]);
      assert forall i :: 4 <= i < |s| ==> s[i] == s[4..][i - 4];
    }
  }

  /** `base64.b64decode(s)`; `None` where it raises. */
  function Decode(s: seq<Byte>): (r: Option<seq<Byte>>)
    ensures r.Some? ==> |Discard(s)| == |Encode(r.value)|
  {
    DecodeQuanta(Discard(s))
  }

  /** The four symbols for three bytes. */
  function EncodeGroup(x: Byte, y: Byte, z: Byte): (r: seq<Byte>)
    ensures |r| == 4 && forall i :: 0 <= i < 4 ==> IsSymbol(r[i])
  {
    [Symbol(x / 4), Symbol((x % 4) * 16 + y / 16), Symbol((y % 16) * 4 + z / 64), Symbol(z % 64)]
  }

  /** `base64.b64encode(bs)`. */
  function Encode(bs: seq<Byte>): (s: seq<Byte>)
    ensures |s| == 4 * ((|bs| + 2) / 3)
    ensures forall i :: 0 <= i < |s| ==> IsSymbolOrPad(s[i])
  {
    if |bs| == 0 then []
    else if |bs| == 1 then EncodeGroup(bs[0], 0, 0)[..2] + [PAD, PAD]
    else if |bs| == 2 then EncodeGroup(bs[0], bs[1], 0)[..3] + [PAD]
    else EncodeGroup(bs[0], bs[1], bs[2]) + Encode(bs[3..])
  }

  /** The encoding as text, one ASCII character per symbol. */
  function EncodeText(bs: seq<Byte>): (t: string)
    ensures |t| == |Encode(bs)|
    ensures forall i :: 0 <= i < |t| ==> t[i] as int == Encode(bs)[i] < 0x80
  {
    var s := Encode(bs);
    seq(|s|, i requires 0 <= i < |s| => s[i] as char)
  }

  lemma DecodeEncodedGroup(x: Byte, y: Byte, z: Byte)
    ensures var e := EncodeGroup(x, y, z); DecodeGroup(e[0], e[1], e[2], e[3]) == [x, y, z]
  {
    var v0, v1, v2, v3 := x / 4, (x % 4) * 16 + y / 16, (y % 16) * 4 + z / 64, z % 64;
    ValueOfSymbol(v0);
    ValueOfSymbol(v1);
    ValueOfSymbol(v2);
    ValueOfSymbol(v3);
    assert v1 / 16 == x % 4 && v1 % 16 == y / 16;
    assert v2 / 4 == y % 16 && v2 % 4 == z / 64;
  }

  lemma DecodeEncodedOne(x: Byte)
    ensures DecodeQuanta(Encode([x])) == Some([x])
  {
    var g := EncodeGroup(x, 0, 0);
    var e := Encode([x]);
    assert g[2] == g[3] == 0x41;
    assert e == g[..2] + [PAD, PAD];
    DecodeEncodedGroup(x, 0, 0);
    assert DecodeLast(e) == Some(DecodeGroup(g[0], g[1], g[2], g[3])[..1]);
    assert DecodeGroup(g[0], g[1], g[2], g[3]) == [x, 0, 0];
    assert [x, 0, 0][..1] == [x];
    assert DecodeQuanta(e) == DecodeLast(e);
  }

  lemma DecodeEncodedTwo(x: Byte, y: Byte)
    ensures DecodeQuanta(Encode([x, y])) == Some([x, y])
  {
    var g := EncodeGroup(x, y, 0);
    var e := Encode([x, y]);
    assert g[3] == 0x41;
    assert e == g[..3] + [PAD];
    DecodeEncodedGroup(x, y, 0);
    assert DecodeLast(e) == Some(DecodeGroup(g[0], g[1], g[2], g[3])[..2]);
    assert DecodeGroup(g[0], g[1], g[2], g[3]) == [x, y, 0];
    assert [x, y, 0][..2] == [x, y];
    assert DecodeQuanta(e) == DecodeLast(e);
  }

  lemma DecodeQuantaPrefix(g: seq<Byte>, rest: seq<Byte>, r: seq<Byte>)
    requires |g| == 4 && forall i :: 0 <= i < 4 ==> IsSymbol(g[i])
    requires DecodeQuanta(rest) == Some(r)
    ensures DecodeQuanta(g + rest) == Some(DecodeGroup(g[0], g[1], g[2], g[3]) + r)
  {
    var s := g + rest;
    assert s[..4] == g && s[4..] == rest;
    if rest == [] {
      assert s == g;
      assert DecodeGroup(g[0], g[1], g[2], g[3]) + r == DecodeGroup(g[0], g[1], g[2], g[3]);
    }
  }

  lemma {:induction false} DecodeQuantaEncode(bs: seq<Byte>)
    ensures DecodeQuanta(Encode(bs)) == Some(bs)
  {
    if |bs| == 1 {
      DecodeEncodedOne(bs[0]);
      assert [bs[0]] == bs;
    } else if |bs| == 2 {
      DecodeEncodedTwo(bs[0], bs[1]);
      assert [bs[0], bs[1]] == bs;
    } else if |bs| >= 3 {
      DecodeQuantaEncode(bs[3..]);
      DecodeQuantaEncodeStep(bs);
    }
  }

  /** A leading group of three decodes back when the rest does. */
  lemma DecodeQuantaEncodeStep(bs: seq<Byte>)
    requires |bs| >= 3 && DecodeQuanta(Encode(bs[3..])) == Some(bs[3..])
    ensures DecodeQuanta(Encode(bs)) == Some(bs)
  {
    var g := EncodeGroup(bs[0], bs[1], bs[2]);
    var rest := Encode(bs[3..]);
    assert Encode(bs) == g + rest;
    DecodeEncodedGroup(bs[0], bs[1], bs[2]);
    DecodeQuantaPrefix(g, rest, bs[3..]);
    assert DecodeGroup(g[0], g[1], g[2], g[3]) == [bs[0], bs[1], bs[2]];
    SplitThree(bs);
  }

  lemma SplitThree(bs: seq<Byte>)
    requires |bs| >= 3
    ensures [bs[0], bs[1], bs[2]] + bs[3..] == bs
  {
  }

  /** Decoding undoes encoding, for every byte string. */
  lemma DecodeEncode(bs: seq<Byte>)
    ensures Decode(Encode(bs)) == Some(bs)
  {
    DiscardKeepsClean(Encode(bs));
    DecodeQuantaEncode(bs);
  }
}
