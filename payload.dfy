/**
 * The plaintext carried by a QR token: the four fields
 * `email|device_id|timestamp|session_id` joined by `|`, Python's
 * `str.split("|")` that reads them back, and the session id drawn as six
 * random octets shown in lowercase hex.
 */
module Payload {
  import opened Common

  /** The field separator of the payload. */
  const Delimiter: char := '|'

  /** How an f-string shows an optional string: `None` prints as "None". */
  function Show(o: Option<string>): string {
    match o
    case None => "None"
    case Some(v) => v
  }

  /** `sep.join(parts)`. */
  function Join(parts: seq<string>, sep: char): (s: string)
    requires |parts| >= 1
    decreases |parts|
  {
    if |parts| == 1 then parts[0] else parts[0] + [sep] + Join(parts[1..], sep)
  }

  /** `s.split(sep)` with an explicit one-character separator: the empty
      string gives one empty field, and every separator starts a new field,
      so no field contains the separator. */
  function Split(s: string, sep: char): (parts: seq<string>)
    ensures |parts| >= 1
    ensures forall i :: 0 <= i < |parts| ==> sep !in parts[i]
    decreases |s|
  {
    if |s| == 0 then [""]
    else
      var rest := Split(s[1..], sep);
      if s[0] == sep then [""] + rest
      else [[s[0]] + rest[0]] + rest[1..]
  }

  /** The first field of a split is the longest prefix free of the
      separator: it is all of `s`, or the next character is the separator. */
  lemma {:induction false} SplitFirst(s: string, sep: char)
    ensures Split(s, sep)[0] <= s
    ensures Split(s, sep)[0] == s || s[|Split(s, sep)[0]|] == sep
    decreases |s|
  {
    if |s| > 0 && s[0] != sep {
      SplitFirst(s[1..], sep);
      assert s == [s[0]] + s[1..];
    }
  }

  /** `s.split("|")[0]`, the only field the handlers read: the part of `s`
      before its first `|`, or all of `s` when it has none. */
  function FirstField(s: string): (f: string)
    ensures f <= s && Delimiter !in f
    ensures f == s || s[|f|] == Delimiter
  {
    SplitFirst(s, Delimiter);
    Split(s, Delimiter)[0]
  }

  /** The f-string `f"{email}|{device_id}|{timestamp}|{session_id}"`: the
      four fields, as the f-string shows them, with a `|` between each two. */
  function Build(email: Option<string>, deviceId: Option<string>, timestamp: string, sessionId: string): (p: string)
    ensures p == Show(email) + [Delimiter] + Show(deviceId) + [Delimiter] + timestamp + [Delimiter] + sessionId
  {
    var parts := [Show(email), Show(deviceId), timestamp, sessionId];
    assert parts[1..][1..][1..] == [sessionId];
    assert Join(parts[1..][1..], Delimiter) == timestamp + [Delimiter] + sessionId;
    assert Join(parts[1..], Delimiter) == Show(deviceId) + [Delimiter] + (timestamp + [Delimiter] + sessionId);
    Join(parts, Delimiter)
  }

  /** Splitting and joining back gives the original string. */
  lemma {:induction false} JoinSplit(s: string, sep: char)
    ensures Join(Split(s, sep), sep) == s
    decreases |s|
  {
    if |s| > 0 {
      var rest := Split(s[1..], sep);
      JoinSplit(s[1..], sep);
      if s[0] == sep {
        assert Split(s, sep)[1..] == rest;
        assert s == [sep] + s[1..];
      } else {
        var parts := Split(s, sep);
        if |rest| == 1 {
          assert s == [s[0]] + s[1..];
        } else {
          assert parts[1..] == rest[1..];
          assert Join(rest, sep) == rest[0] + [sep] + Join(rest[1..], sep);
          assert s == [s[0]] + s[1..];
        }
      }
    }
  }

  /** A field free of the separator, followed by a separator or nothing,
      is split off as the first field; what follows is split on its own. */
  lemma {:induction false} SplitHead(a: string, t: string, sep: char)
    requires sep !in a
    ensures t == [] ==> Split(a + t, sep) == [a]
    ensures |t| > 0 && t[0] == sep ==> Split(a + t, sep) == [a] + Split(t[1..], sep)
    decreases |a|
  {
    if |a| == 0 {
      assert a + t == t;
    } else {
      SplitHead(a[1..], t, sep);
      assert (a + t)[1..] == a[1..] + t;
      assert [a[0]] + a[1..] == a;
    }
  }

  /** Joining fields free of the separator and splitting again gives the
      fields back; and only such fields come back. */
  lemma {:induction false} SplitJoin(parts: seq<string>, sep: char)
    requires |parts| >= 1
    ensures Split(Join(parts, sep), sep) == parts
        <==> forall i :: 0 <= i < |parts| ==> sep !in parts[i]
    decreases |parts|
  {
    if forall i :: 0 <= i < |parts| ==> sep !in parts[i] {
      if |parts| == 1 {
        SplitHead(parts[0], [], sep);
        assert parts[0] + [] == parts[0];
      } else {
        var t := [sep] + Join(parts[1..], sep);
        SplitJoin(parts[1..], sep);
        SplitHead(parts[0], t, sep);
        assert parts[0] + [sep] + Join(parts[1..], sep) == parts[0] + t;
        assert t[1..] == Join(parts[1..], sep);
        assert [parts[0]] + parts[1..] == parts;
      }
    }
  }

  /** The first field of a joined string is the first part exactly when that
      part holds no separator; otherwise it is a proper prefix of it. */
  lemma FirstOfJoin(parts: seq<string>, sep: char)
    requires |parts| >= 2
    ensures Split(Join(parts, sep), sep)[0] == parts[0] <==> sep !in parts[0]
    ensures sep in parts[0] ==> |Split(Join(parts, sep), sep)[0]| < |parts[0]|
  {
    var t := [sep] + Join(parts[1..], sep);
    assert Join(parts, sep) == parts[0] + t;
    if sep !in parts[0] {
      SplitHead(parts[0], t, sep);
      assert t[0] == sep;
    } else {
      PrefixBeforeSeparator(parts[0], t, sep);
    }
  }

  /** When `a` holds the separator, the first field of `a + t` ends before
      the first separator of `a`. */
  lemma {:induction false} PrefixBeforeSeparator(a: string, t: string, sep: char)
    requires sep in a
    ensures |Split(a + t, sep)[0]| < |a|
    decreases |a|
  {
    assert (a + t)[0] == a[0];
    if a[0] != sep {
      assert (a + t)[1..] == a[1..] + t;
      PrefixBeforeSeparator(a[1..], t, sep);
    }
  }

  /** The email is read back from a payload, whatever the other fields hold,
      exactly when it contains no `|`. */
  lemma FirstFieldOfPayload(email: Option<string>, deviceId: Option<string>, timestamp: string, sessionId: string)
    ensures FirstField(Build(email, deviceId, timestamp, sessionId)) == Show(email)
        <==> Delimiter !in Show(email)
  {
    FirstOfJoin([Show(email), Show(deviceId), timestamp, sessionId], Delimiter);
  }

  /** All four fields come back from a payload exactly when none holds `|`. */
  lemma FieldsOfPayload(email: Option<string>, deviceId: Option<string>, timestamp: string, sessionId: string)
    ensures Split(Build(email, deviceId, timestamp, sessionId), Delimiter)
         == [Show(email), Show(deviceId), timestamp, sessionId]
        <==> Delimiter !in Show(email) && Delimiter !in Show(deviceId)
             && Delimiter !in timestamp && Delimiter !in sessionId
  {
    var parts := [Show(email), Show(deviceId), timestamp, sessionId];
    SplitJoin(parts, Delimiter);
    assert (forall i :: 0 <= i < |parts| ==> Delimiter !in parts[i])
        <==> Delimiter !in parts[0] && Delimiter !in parts[1] && Delimiter !in parts[2] && Delimiter !in parts[3];
  }

  /** Digits of `bytes.hex()`. */
  const HexDigits: string := "0123456789abcdef"

  predicate IsLowerHex(s: string) {
    forall i :: 0 <= i < |s| ==> s[i] in HexDigits
  }

  /** The two lowercase hex digits of one octet, high nibble first. */
  function HexPair(x: byte): (d: string)
    ensures |d| == 2 && IsLowerHex(d)
  {
    [HexDigits[x >> 4], HexDigits[x & 15]]
  }

  /** `bytes.hex()`: two lowercase digits per octet. */
  function Hex(b: Bytes): (s: string)
    ensures |s| == 2 * |b| && IsLowerHex(s)
  {
    if |b| == 0 then ""
    else
      var d, rest := HexPair(b[0]), Hex(b[1..]);
      assert forall i :: 2 <= i < |d + rest| ==> (d + rest)[i] == rest[i - 2];
      d + rest
  }

  /** Distinct nibbles have distinct digits. */
  lemma DigitsDistinct(m: int, n: int)
    requires 0 <= m < 16 && 0 <= n < 16 && HexDigits[m] == HexDigits[n]
    ensures m == n
  {
  }

  /** An octet is determined by its two nibbles. */
  lemma OctetOfNibbles(x: byte, y: byte)
    requires x >> 4 == y >> 4 && x & 15 == y & 15
    ensures x == y
  {
  }

  /** An octet is determined by its two hex digits. */
  lemma HexPairInjective(x: byte, y: byte)
    requires HexPair(x) == HexPair(y)
    ensures x == y
  {
    assert HexPair(x)[0] == HexPair(y)[0] && HexPair(x)[1] == HexPair(y)[1];
    DigitsDistinct((x >> 4) as int, (y >> 4) as int);
    DigitsDistinct((x & 15) as int, (y & 15) as int);
    OctetOfNibbles(x, y);
  }

  /** Different octet strings have different hex forms. */
  lemma {:induction false} HexInjective(b1: Bytes, b2: Bytes)
    requires Hex(b1) == Hex(b2)
    ensures b1 == b2
    decreases |b1|
  {
    if |b1| > 0 {
      var s := Hex(b1);
      assert s[..2] == HexPair(b1[0]) == HexPair(b2[0]);
      assert s[2..] == Hex(b1[1..]) == Hex(b2[1..]);
      HexPairInjective(b1[0], b2[0]);
      HexInjective(b1[1..], b2[1..]);
      assert b1 == [b1[0]] + b1[1..];
      assert b2 == [b2[0]] + b2[1..];
    }
  }

  /** `os.urandom(6).hex()`, the random octets given as input. */
  function SessionId(random: Bytes): (s: string)
    requires |random| == 6
    ensures |s| == 12 && IsLowerHex(s) && Delimiter !in s
  {
    var s := Hex(random);
    assert forall i :: 0 <= i < |s| ==> s[i] != Delimiter;
    s
  }
}
