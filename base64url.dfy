/** The outer text encoding of a token: base 64 with the URL- and
    filename-safe alphabet of section 5 of RFC 4648, with `=` padding
    (`base64.urlsafe_b64encode` / `base64.urlsafe_b64decode`).

    Decoding is defined once, with a switch: `DecodeAsWritten` ignores
    the unused low bits of a padded final quantum, as Python's decoder
    does; `Decode` (the canonical decoder, section 3.5 of RFC 4648)
    rejects a final quantum whose unused bits are not zero. */
module Base64Url {
  import opened Common

  const Pad: char := '='

  /** A 6-bit value, held in an octet. */
  type sextet = v: bv8 | v < 64

  /** The 64 symbols of the URL- and filename-safe alphabet. */
  predicate IsSym(c: char) {
    'A' <= c <= 'Z' || 'a' <= c <= 'z' || '0' <= c <= '9' || c == '-' || c == '_'
  }

  /** The symbol for the number `n` in 0..63: A-Z, a-z, 0-9, `-`, `_`. */
  function SymOf(n: int): (c: char)
    requires 0 <= n < 64
    ensures IsSym(c)
  {
    if n < 26 then ('A' as int + n) as char
    else if n < 52 then ('a' as int + n - 26) as char
    else if n < 62 then ('0' as int + n - 52) as char
    else if n == 62 then '-'
    else '_'
  }

  /** The number of a symbol; the inverse of `SymOf`. */
  function ValOf(c: char): (n: int)
    requires IsSym(c)
    ensures 0 <= n < 64 && SymOf(n) == c
  {
    if 'A' <= c <= 'Z' then c as int - 'A' as int
    else if 'a' <= c <= 'z' then c as int - 'a' as int + 26
    else if '0' <= c <= '9' then c as int - '0' as int + 52
    else if c == '-' then 62
    else 63
  }

  function Sym(v: sextet): (c: char)
    ensures IsSym(c)
  {
    SymOf(v as int)
  }

  function Val(c: char): (v: sextet)
    requires IsSym(c)
    ensures Sym(v) == c
  {
    var n := ValOf(c);
    assert (n as bv8) as int == n;
    n as bv8
  }

  lemma ValSym(v: sextet)
    ensures Val(Sym(v)) == v
  {
    assert ValOf(SymOf(v as int)) == v as int;
    assert (v as int) as bv8 == v;
  }

  /** The three octets of a full quantum, from its four sextets. */
  function Octets(v0: sextet, v1: sextet, v2: sextet, v3: sextet): (b: Bytes)
    ensures |b| == 3
  {
    [(v0 << 2) | (v1 >> 4), ((v1 & 15) << 4) | (v2 >> 2), ((v2 & 3) << 6) | v3]
  }

  /** The four sextets of a full quantum, from its three octets. */
  function Sextets(b0: byte, b1: byte, b2: byte): (v: seq<sextet>)
    ensures |v| == 4
  {
    [b0 >> 2, ((b0 & 3) << 4) | (b1 >> 4), ((b1 & 15) << 2) | (b2 >> 6), b2 & 63]
  }

  /** Splitting three octets into four sextets and joining them again
      gives the octets back. */
  lemma OctetsOfSextets(b0: byte, b1: byte, b2: byte)
    ensures var v := Sextets(b0, b1, b2); Octets(v[0], v[1], v[2], v[3]) == [b0, b1, b2]
  {
  }

  /** Joining four sextets into three octets and splitting them again
      gives the sextets back. */
  lemma SextetsOfOctets(v0: sextet, v1: sextet, v2: sextet, v3: sextet)
    ensures var b := Octets(v0, v1, v2, v3); Sextets(b[0], b[1], b[2]) == [v0, v1, v2, v3]
  {
  }

  /** The length of the encoding of `n` octets: 4 characters per
      started group of 3. */
  function EncodedLength(n: nat): nat {
    if n == 0 then 0 else if n <= 3 then 4 else 4 + EncodedLength(n - 3)
  }

  /** The closed form: a multiple of 4, namely 4 * ceil(n / 3). */
  lemma {:induction false} EncodedLengthFormula(n: nat)
    ensures EncodedLength(n) == 4 * ((n + 2) / 3) && EncodedLength(n) % 4 == 0
  {
    if n > 3 {
      EncodedLengthFormula(n - 3);
    }
  }

  /** One to three octets as one 4-character quantum; missing octets
      count as zero bits and show as padding. */
  function EncodeGroup(g: Bytes): (q: string)
    requires 1 <= |g| <= 3
    ensures |q| == 4
  {
    var v := Sextets(g[0], if |g| > 1 then g[1] else 0, if |g| > 2 then g[2] else 0);
    [Sym(v[0]), Sym(v[1])]
    + (if |g| > 1 then [Sym(v[2])] else [Pad])
    + (if |g| > 2 then [Sym(v[3])] else [Pad])
  }

  /** A quantum starts with two symbols; it ends in one `=` per missing
      octet and in symbols otherwise. */
  lemma GroupShape(g: Bytes)
    requires 1 <= |g| <= 3
    ensures var q := EncodeGroup(g);
      IsSym(q[0]) && IsSym(q[1])
      && (|g| > 1 <==> IsSym(q[2])) && (|g| <= 1 <==> q[2] == Pad)
      && (|g| > 2 <==> IsSym(q[3])) && (|g| <= 2 <==> q[3] == Pad)
  {
  }

  /** `urlsafe_b64encode`: the output is 4 characters per started group
      of 3 octets, over the alphabet plus `=`. */
  function Encode(b: Bytes): (s: string)
    ensures |s| == EncodedLength(|b|)
    decreases |b|
  {
    if |b| == 0 then ""
    else if |b| <= 3 then EncodeGroup(b)
    else
      EncodeGroup(b[..3]) + Encode(b[3..])
  }

  /** One 4-character quantum back to one to three octets, or None when
      it is not a well-formed quantum. With `canonical`, the bits that
      padding leaves unused must be zero. */
  function DecodeGroup(q: string, canonical: bool): (r: Option<Bytes>)
    requires |q| == 4
    ensures r.Some? ==> 1 <= |r.value| <= 3
    ensures r.Some? && IsSym(q[2]) && IsSym(q[3]) ==> |r.value| == 3
  {
    if !(IsSym(q[0]) && IsSym(q[1])) then None
    else if q[2] == Pad && q[3] == Pad then
      var b := Octets(Val(q[0]), Val(q[1]), 0, 0);
      if canonical && b[1] != 0 then None else Some(b[..1])
    else if IsSym(q[2]) && q[3] == Pad then
      var b := Octets(Val(q[0]), Val(q[1]), Val(q[2]), 0);
      if canonical && b[2] != 0 then None else Some(b[..2])
    else if IsSym(q[2]) && IsSym(q[3]) then
      Some(Octets(Val(q[0]), Val(q[1]), Val(q[2]), Val(q[3])))
    else None
  }

  /** Decoding quantum by quantum; only the last quantum may carry padding. */
  function DecodeWith(s: string, canonical: bool): (r: Option<Bytes>)
    ensures r.Some? ==> |s| == EncodedLength(|r.value|)
    decreases |s|
  {
    if |s| == 0 then Some([])
    else if |s| < 4 then None
    else if |s| == 4 then DecodeGroup(s, canonical)
    else if !(IsSym(s[2]) && IsSym(s[3])) then None
    else
      match DecodeGroup(s[..4], canonical)
      case None => None
      case Some(g) =>
        match DecodeWith(s[4..], canonical)
        case None => None
        case Some(rest) => Some(g + rest)
  }

  /** `urlsafe_b64decode` as Python performs it on well-formed input: it
      agrees with the canonical decoder wherever that one succeeds. */
  function DecodeAsWritten(s: string): (r: Option<Bytes>)
    ensures Decode(s).Some? ==> r == Decode(s)
  {
    var c := DecodeWith(s, true);
    if c.Some? then
      EncodeDecode(s, c.value);
      DecodeEncode(c.value, false);
      DecodeWith(s, false)
    else DecodeWith(s, false)
  }

  /** The canonical decoder: it accepts exactly the strings the encoder
      produces. */
  function Decode(s: string): (r: Option<Bytes>)
    ensures r.Some? ==> Encode(r.value) == s
  {
    var c := DecodeWith(s, true);
    if c.Some? then
      EncodeDecode(s, c.value);
      c
    else c
  }

  lemma GroupRoundTrip(g: Bytes, canonical: bool)
    requires 1 <= |g| <= 3
    ensures DecodeGroup(EncodeGroup(g), canonical) == Some(g)
  {
    var b1: byte := if |g| > 1 then g[1] else 0;
    var b2: byte := if |g| > 2 then g[2] else 0;
    var v := Sextets(g[0], b1, b2);
    var q := EncodeGroup(g);
    OctetsOfSextets(g[0], b1, b2);
    ValSym(v[0]);
    ValSym(v[1]);
    ValSym(v[2]);
    ValSym(v[3]);
    if |g| == 1 {
      assert v[2] == 0 && v[3] == 0;
      assert Octets(Val(q[0]), Val(q[1]), 0, 0) == [g[0], 0, 0];
      assert q[2] == Pad && q[3] == Pad;
      assert [g[0], 0, 0][..1] == [g[0]] == g;
    } else if |g| == 2 {
      assert v[3] == 0;
      assert Octets(Val(q[0]), Val(q[1]), Val(q[2]), 0) == [g[0], g[1], 0];
      assert IsSym(q[2]) && q[3] == Pad;
      assert [g[0], g[1], 0][..2] == [g[0], g[1]] == g;
    } else {
      assert Octets(Val(q[0]), Val(q[1]), Val(q[2]), Val(q[3])) == Octets(v[0], v[1], v[2], v[3]);
      assert g == [g[0], b1, b2];
    }
  }

  /** Every octet string survives an encode/decode round trip, under
      either decoder. */
  lemma {:induction false} DecodeEncode(b: Bytes, canonical: bool)
    ensures DecodeWith(Encode(b), canonical) == Some(b)
    decreases |b|
  {
    if |b| == 0 {
    } else if |b| <= 3 {
      GroupRoundTrip(b, canonical);
    } else {
      var s := Encode(b);
      GroupRoundTrip(b[..3], canonical);
      DecodeEncode(b[3..], canonical);
      assert s[..4] == EncodeGroup(b[..3]);
      assert s[4..] == Encode(b[3..]);
      assert b[..3] + b[3..] == b;
    }
  }

  lemma OneOctetCanonical(q: string, g: Bytes)
    requires |q| == 4 && DecodeGroup(q, true) == Some(g) && |g| == 1
    ensures EncodeGroup(g) == q
  {
    var v0, v1 := Val(q[0]), Val(q[1]);
    var b := Octets(v0, v1, 0, 0);
    SextetsOfOctets(v0, v1, 0, 0);
    assert g == [b[0]] && b[1] == 0 && b[2] == 0;
    assert Sextets(b[0], 0, 0) == [v0, v1, 0, 0];
    assert q == [Sym(v0), Sym(v1), Pad, Pad];
  }

  lemma TwoOctetsCanonical(q: string, g: Bytes)
    requires |q| == 4 && DecodeGroup(q, true) == Some(g) && |g| == 2
    ensures EncodeGroup(g) == q
  {
    var v0, v1, v2 := Val(q[0]), Val(q[1]), Val(q[2]);
    var b := Octets(v0, v1, v2, 0);
    SextetsOfOctets(v0, v1, v2, 0);
    assert g == [b[0], b[1]] && b[2] == 0;
    assert Sextets(b[0], b[1], 0) == [v0, v1, v2, 0];
    assert q == [Sym(v0), Sym(v1), Sym(v2), Pad];
  }

  lemma ThreeOctetsCanonical(q: string, g: Bytes)
    requires |q| == 4 && DecodeGroup(q, true) == Some(g) && |g| == 3
    ensures EncodeGroup(g) == q
  {
    var v0, v1, v2, v3 := Val(q[0]), Val(q[1]), Val(q[2]), Val(q[3]);
    SextetsOfOctets(v0, v1, v2, v3);
    assert g == Octets(v0, v1, v2, v3);
    assert Sextets(g[0], g[1], g[2]) == [v0, v1, v2, v3];
    assert q == [Sym(v0), Sym(v1), Sym(v2), Sym(v3)];
  }

  /** A quantum the canonical decoder accepts is the encoding of what it
      decodes to. */
  lemma GroupCanonical(q: string, g: Bytes)
    requires |q| == 4 && DecodeGroup(q, true) == Some(g)
    ensures EncodeGroup(g) == q
  {
    if |g| == 1 {
      OneOctetCanonical(q, g);
    } else if |g| == 2 {
      TwoOctetsCanonical(q, g);
    } else {
      ThreeOctetsCanonical(q, g);
    }
  }

  /** The canonical decoder accepts only what the encoder produces. */
  lemma {:induction false} EncodeDecode(s: string, b: Bytes)
    requires DecodeWith(s, true) == Some(b)
    ensures Encode(b) == s
    decreases |s|
  {
    if |s| == 0 {
    } else if |s| == 4 {
      GroupCanonical(s, b);
    } else {
      var g := DecodeGroup(s[..4], true).value;
      var rest := DecodeWith(s[4..], true).value;
      GroupCanonical(s[..4], g);
      EncodeDecode(s[4..], rest);
      assert b == g + rest;
      assert b[..3] == g && b[3..] == rest;
      assert s == s[..4] + s[4..];
    }
  }

  /** The encoder's output is made of alphabet symbols and padding only. */
  lemma {:induction false} EncodeAlphabet(b: Bytes)
    ensures forall i :: 0 <= i < |Encode(b)| ==> IsSym(Encode(b)[i]) || Encode(b)[i] == Pad
    decreases |b|
  {
    if |b| > 3 {
      EncodeAlphabet(b[3..]);
      var q, t := EncodeGroup(b[..3]), Encode(b[3..]);
      assert forall i :: 4 <= i < |q + t| ==> (q + t)[i] == t[i - 4];
    }
  }

  /** The last quantum of the encoding of one or two octets, with the
      lowest of the bits that padding discards set to one. */
  function FlipUnusedBit(g: Bytes): (q: string)
    requires 1 <= |g| <= 2
    ensures |q| == 4
  {
    var v := Sextets(g[0], if |g| > 1 then g[1] else 0, 0);
    if |g| == 1 then [Sym(v[0]), Sym(v[1] | 1), Pad, Pad]
    else [Sym(v[0]), Sym(v[1]), Sym(v[2] | 1), Pad]
  }

  /** Setting an unused bit changes exactly one character of the quantum:
      the last symbol before the padding. */
  lemma FlipChangesOneSymbol(g: Bytes)
    requires 1 <= |g| <= 2
    ensures DiffersOnlyAt(FlipUnusedBit(g), EncodeGroup(g), |g|)
  {
    var v := Sextets(g[0], if |g| > 1 then g[1] else 0, 0);
    var w := v[|g|] | 1;
    assert w != v[|g|] ==> Sym(w) != Sym(v[|g|]) by {
      ValSym(w);
      ValSym(v[|g|]);
    }
  }

  /** At the bit level: the flipped bit lands in the discarded third octet. */
  lemma FlipOneOctetBits(b0: byte)
    ensures var v := Sextets(b0, 0, 0); var o := Octets(v[0], v[1] | 1, 0, 0);
      o[0] == b0 && o[1] != 0
  {
  }

  lemma FlipTwoOctetsBits(b0: byte, b1: byte)
    ensures var v := Sextets(b0, b1, 0); var o := Octets(v[0], v[1], v[2] | 1, 0);
      o[0] == b0 && o[1] == b1 && o[2] != 0
  {
  }

  lemma FlipOneOctetDecodes(g: Bytes)
    requires |g| == 1
    ensures var t := FlipUnusedBit(g);
      DecodeGroup(t, false) == Some(g) && DecodeGroup(t, true) == None
  {
    var v := Sextets(g[0], 0, 0);
    var w := v[1] | 1;
    var t := FlipUnusedBit(g);
    var b := Octets(v[0], w, 0, 0);
    FlipOneOctetBits(g[0]);
    ValSym(v[0]);
    ValSym(w);
    assert Val(t[0]) == v[0] && Val(t[1]) == w && t[2] == Pad && t[3] == Pad;
    assert b[..1] == g;
  }

  lemma FlipTwoOctetsDecodes(g: Bytes)
    requires |g| == 2
    ensures var t := FlipUnusedBit(g);
      DecodeGroup(t, false) == Some(g) && DecodeGroup(t, true) == None
  {
    var v := Sextets(g[0], g[1], 0);
    var w := v[2] | 1;
    var t := FlipUnusedBit(g);
    var b := Octets(v[0], v[1], w, 0);
    FlipTwoOctetsBits(g[0], g[1]);
    ValSym(v[0]);
    ValSym(v[1]);
    ValSym(w);
    assert Val(t[0]) == v[0] && Val(t[1]) == v[1] && Val(t[2]) == w && t[3] == Pad;
    assert b[..2] == g;
  }

  /** The encoding of `b` with its last symbol altered in bits that
      padding discards; defined when the last quantum is padded. */
  function TamperedEncoding(b: Bytes): (t: string)
    requires |b| % 3 != 0
    decreases |b|
  {
    if |b| <= 2 then FlipUnusedBit(b)
    else EncodeGroup(b[..3]) + TamperedEncoding(b[3..])
  }

  /** `t` and `s` have the same length and differ at index `k` only. */
  predicate DiffersOnlyAt(t: string, s: string, k: int) {
    |t| == |s| && 0 <= k < |s| && t[k] != s[k]
    && forall i :: 0 <= i < |s| && i != k ==> t[i] == s[i]
  }

  lemma PrefixKeepsDifference(q: string, t: string, s: string, k: int)
    requires DiffersOnlyAt(t, s, k)
    ensures DiffersOnlyAt(q + t, q + s, |q| + k)
  {
    assert forall i :: |q| <= i < |q| + |s| ==> (q + t)[i] == t[i - |q|] && (q + s)[i] == s[i - |q|];
  }

  lemma DropGroupKeepsRemainder(n: int)
    ensures n % 3 == (n - 3) % 3
  {
  }

  /** The altered encoding differs from the true one in exactly one
      character, inside the final quantum. */
  lemma {:induction false} TamperedDiffersOnce(b: Bytes)
    requires |b| % 3 != 0
    ensures DiffersOnlyAt(TamperedEncoding(b), Encode(b), |Encode(b)| - 4 + |b| % 3)
    decreases |b|
  {
    if |b| <= 2 {
      FlipChangesOneSymbol(b);
    } else {
      var q, s', t' := EncodeGroup(b[..3]), Encode(b[3..]), TamperedEncoding(b[3..]);
      TamperedDiffersOnce(b[3..]);
      PrefixKeepsDifference(q, t', s', |s'| - 4 + |b[3..]| % 3);
      DropGroupKeepsRemainder(|b|);
    }
  }

  /** The decoder as written accepts the altered encoding as `b`; the
      canonical decoder refuses it. */
  lemma {:induction false} TamperedDecodes(b: Bytes, canonical: bool)
    requires |b| % 3 != 0
    ensures DecodeWith(TamperedEncoding(b), canonical) == if canonical then None else Some(b)
    decreases |b|
  {
    if |b| == 1 {
      FlipOneOctetDecodes(b);
    } else if |b| == 2 {
      FlipTwoOctetsDecodes(b);
    } else {
      var t := TamperedEncoding(b);
      var q := EncodeGroup(b[..3]);
      GroupRoundTrip(b[..3], canonical);
      TamperedDecodes(b[3..], canonical);
      assert t[..4] == q && t[4..] == TamperedEncoding(b[3..]);
      assert b[..3] + b[3..] == b;
    }
  }

  /** The decoder as written accepts a second, different encoding of every
      octet string whose length is not a multiple of 3, differing from the
      true encoding in one character; the canonical decoder refuses it. */
  lemma AsWrittenAcceptsTampered(b: Bytes)
    requires |b| % 3 != 0
    ensures DiffersOnlyAt(TamperedEncoding(b), Encode(b), |Encode(b)| - 4 + |b| % 3)
    ensures DecodeAsWritten(TamperedEncoding(b)) == Some(b)
    ensures Decode(TamperedEncoding(b)) == None
  {
    TamperedDiffersOnce(b);
    TamperedDecodes(b, false);
    TamperedDecodes(b, true);
  }

  /** The smallest instance: "QR==" differs from the encoding "QQ==" of the
      octet 0x41 only in a discarded bit. */
  lemma AsWrittenAcceptsQR()
    ensures Encode([0x41]) == "QQ=="
    ensures DecodeAsWritten("QR==") == Some([0x41])
    ensures Decode("QR==") == None
  {
    assert Sextets(0x41, 0, 0) == [16, 16, 0, 0];
    assert SymOf(16) == 'Q' && SymOf(17) == 'R';
    assert ValOf('Q') == 16 && ValOf('R') == 17;
    assert Val('Q') == 16 && Val('R') == 17;
    var q: string := "QR==";
    assert IsSym(q[0]) && IsSym(q[1]) && q[2] == Pad && q[3] == Pad;
    var b := Octets(16, 17, 0, 0);
    assert b == [0x41, 0x10, 0] && b[..1] == [0x41];
    assert DecodeGroup(q, false) == Some([0x41]);
  }
}
