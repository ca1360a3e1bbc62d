/**
 The ticket encoding: URL-safe Base64 with its padding stripped on the way out and restored
 by length on the way in (section 5 of RFC 4648). The decoder is the lenient one of
 `base64.urlsafe_b64decode`, which skips characters outside the alphabet.
 */
module Base64Url {
  import opened Wrappers

  predicate InAlphabet(c: char) {
    'A' <= c <= 'Z' || 'a' <= c <= 'z' || '0' <= c <= '9' || c == '-' || c == '_'
  }

  function Symbol(v: int): (c: char)
    requires 0 <= v < 64
    ensures InAlphabet(c) && Value(c) == Some(v)
  {
    if v < 26 then 'A' + v as char
    else if v < 52 then 'a' + (v - 26) as char
    else if v < 62 then '0' + (v - 52) as char
    else if v == 62 then '-' else '_'
  }

  /** The decoder takes both alphabets for 62 and 63. */
  function Value(c: char): (v: Option<int>)
    ensures v.Some? ==> 0 <= v.value < 64
  {
    if 'A' <= c <= 'Z' then Some(c as int - 'A' as int)
    else if 'a' <= c <= 'z' then Some(c as int - 'a' as int + 26)
    else if '0' <= c <= '9' then Some(c as int - '0' as int + 52)
    else if c == '-' || c == '+' then Some(62)
    else if c == '_' || c == '/' then Some(63)
    else None
  }

  function One(a: Byte): (r: string)
    ensures |r| == 2 && forall c :: c in r ==> InAlphabet(c)
  {
    [Symbol(a / 4), Symbol(a % 4 * 16)]
  }

  function Two(a: Byte, b: Byte): (r: string)
    ensures |r| == 3 && forall c :: c in r ==> InAlphabet(c)
  {
    [Symbol(a / 4), Symbol(a % 4 * 16 + b / 16), Symbol(b % 16 * 4)]
  }

  function Three(a: Byte, b: Byte, c: Byte): (r: string)
    ensures |r| == 4 && forall x :: x in r ==> InAlphabet(x)
  {
    [Symbol(a / 4), Symbol(a % 4 * 16 + b / 16), Symbol(b % 16 * 4 + c / 64), Symbol(c % 64)]
  }

  /** `base64.urlsafe_b64encode`, padding included. */
  function EncodePadded(bytes: seq<Byte>): string {
    if |bytes| == 0 then ""
    else if |bytes| == 1 then One(bytes[0]) + "=="
    else if |bytes| == 2 then Two(bytes[0], bytes[1]) + "="
    else Three(bytes[0], bytes[1], bytes[2]) + EncodePadded(bytes[3..])
  }

  /** `.rstrip("=")`. */
  function StripPadding(s: string): string {
    if s != "" && s[|s| - 1] == '=' then StripPadding(s[..|s| - 1]) else s
  }

  function Encode(bytes: seq<Byte>): string {
    StripPadding(EncodePadded(bytes))
  }

  function Padding(n: nat): string {
    if n == 0 then "" else "=" + Padding(n - 1)
  }

  /** Where the scan of one group of four stands: characters seen, bits left over, pads seen. */
  function Scan(s: string, quad: nat, left: int, pads: nat): Option<seq<Byte>>
    requires quad < 4 && 0 <= left < 64
    requires quad == 2 ==> left < 16
    requires quad == 3 ==> left < 4
    decreases |s|
  {
    if s == "" then (if quad == 0 then Some([]) else None)
    else if s[0] == '=' then
      if quad >= 2 && quad + pads + 1 >= 4 then Some([])
      else Scan(s[1..], quad, left, if quad >= 2 then pads + 1 else pads)
    else if Value(s[0]) == None then Scan(s[1..], quad, left, pads)
    else
      var v := Value(s[0]).value;
      if quad == 0 then Scan(s[1..], 1, v, 0)
      else if quad == 1 then Emit(left * 4 + v / 16, Scan(s[1..], 2, v % 16, 0))
      else if quad == 2 then Emit(left * 16 + v / 4, Scan(s[1..], 3, v % 4, 0))
      else Emit(left * 64 + v, Scan(s[1..], 0, 0, 0))
  }

  function Emit(b: int, rest: Option<seq<Byte>>): Option<seq<Byte>>
    requires 0 <= b < 256
  {
    if rest == None then None else Some([b] + rest.value)
  }

  /** `_b64decode`: restore `-len % 4` pads, then decode. */
  function Decode(s: string): Option<seq<Byte>> {
    Scan(s + Padding(-|s| % 4), 0, 0, 0)
  }

  // ---------------------------------------------------------------- the alphabet and the groups

  const UPPER := "ABCDEFGHIJKLMNOPQRSTUVWXYZ"
  const LOWER := "abcdefghijklmnopqrstuvwxyz"
  const ALPHABET := UPPER + LOWER + "0123456789-_"

  lemma UpperLetter(i: nat)
    requires i < 26
    ensures |UPPER| == 26 && UPPER[i] == 'A' + i as char
  {
  }

  lemma LowerLetter(i: nat)
    requires i < 26
    ensures |LOWER| == 26 && LOWER[i] == 'a' + i as char
  {
  }

  /** The symbols are those of the URL-safe alphabet (table 2 of RFC 4648). */
  lemma SymbolsAreTheAlphabet(v: nat)
    requires v < 64
    ensures |ALPHABET| == 64 && Symbol(v) == ALPHABET[v]
  {
    UpperLetter(if v < 26 then v else 0);
    LowerLetter(if 26 <= v < 52 then v - 26 else 0);
    assert 52 <= v < 62 ==> "0123456789-_"[v - 52] == '0' + (v - 52) as char;
  }

  /** The bits of a group, first byte first, in sixes (section 4 of RFC 4648). */
  lemma GroupBits(a: Byte, b: Byte, c: Byte, v0: int, v1: int, v2: int, v3: int)
    requires Value(Three(a, b, c)[0]) == Some(v0) && Value(Three(a, b, c)[1]) == Some(v1)
    requires Value(Three(a, b, c)[2]) == Some(v2) && Value(Three(a, b, c)[3]) == Some(v3)
    ensures 262144 * v0 + 4096 * v1 + 64 * v2 + v3 == 65536 * a + 256 * b + c
  {
  }

  /** What is missing of a group is zero. */
  lemma ShortGroups(a: Byte, b: Byte)
    ensures Two(a, b) == Three(a, b, 0)[..3] && One(a) == Three(a, 0, 0)[..2]
  {
  }

  /** Three bytes at a time make four symbols. */
  lemma HeadAndRest(bytes: seq<Byte>)
    requires |bytes| >= 3
    ensures var e, rest := EncodePadded(bytes), EncodePadded(bytes[3..]);
            |e| == 4 + |rest| && e[..4] == Three(bytes[0], bytes[1], bytes[2]) && e[4..] == rest
  {
  }

  /** One or two bytes that are left are filled up with "=". */
  lemma LastGroup(a: Byte, b: Byte)
    ensures EncodePadded([]) == "" && EncodePadded([a]) == One(a) + "==" && EncodePadded([a, b]) == Two(a, b) + "="
  {
  }

  // ---------------------------------------------------------------- the round trip

  /** The encoding without padding, group by group. */
  function Bare(bytes: seq<Byte>): (r: string)
    ensures forall c :: c in r ==> InAlphabet(c)
  {
    if |bytes| == 0 then ""
    else if |bytes| == 1 then One(bytes[0])
    else if |bytes| == 2 then Two(bytes[0], bytes[1])
    else Three(bytes[0], bytes[1], bytes[2]) + Bare(bytes[3..])
  }

  lemma SmallPaddings()
    ensures Padding(0) == "" && Padding(1) == "=" && Padding(2) == "=="
  {
    assert Padding(1) == "=" + Padding(0);
    assert Padding(2) == "=" + Padding(1);
  }

  lemma FourMore(n: int)
    ensures -(n + 4) % 4 == -n % 4
  {
    assert -(n + 4) == -n + 4 * -1;
  }

  /** The padding that was there is what the length of the rest says. */
  lemma {:induction false} EncodedIsBarePlusPadding(bytes: seq<Byte>)
    ensures EncodePadded(bytes) == Bare(bytes) + Padding(-|Bare(bytes)| % 4)
  {
    SmallPaddings();
    if |bytes| >= 3 {
      EncodedIsBarePlusPadding(bytes[3..]);
      var group, rest := Three(bytes[0], bytes[1], bytes[2]), Bare(bytes[3..]);
      FourMore(|rest|);
    }
  }

  lemma {:induction false} StripPaddingOf(s: string, n: nat)
    requires s == "" || s[|s| - 1] != '='
    ensures StripPadding(s + Padding(n)) == s
  {
    if n == 0 {
      assert s + Padding(0) == s;
    } else {
      PaddingEnds(n);
      var t := s + Padding(n);
      assert t[..|t| - 1] == s + Padding(n - 1);
      StripPaddingOf(s, n - 1);
    }
  }

  lemma {:induction false} PaddingEnds(n: nat)
    requires n > 0
    ensures |Padding(n)| == n && Padding(n)[n - 1] == '=' && Padding(n)[..n - 1] == Padding(n - 1)
  {
    if n > 1 {
      PaddingEnds(n - 1);
    }
  }

  lemma EncodeIsBare(bytes: seq<Byte>)
    ensures Encode(bytes) == Bare(bytes)
  {
    EncodedIsBarePlusPadding(bytes);
    var bare := Bare(bytes);
    if bare != "" {
      assert bare[|bare| - 1] in bare;
    }
    StripPaddingOf(bare, -|bare| % 4);
  }

  /** One symbol of a group: what it adds to the bits left over. */
  lemma ScanSymbol(s: string, v: int, quad: nat, left: int)
    requires 0 <= v < 64 && s != "" && s[0] == Symbol(v)
    requires quad < 4 && 0 <= left < 64 && (quad == 2 ==> left < 16) && (quad == 3 ==> left < 4)
    ensures Scan(s, quad, left, 0)
         == if quad == 0 then Scan(s[1..], 1, v, 0)
            else if quad == 1 then Emit(left * 4 + v / 16, Scan(s[1..], 2, v % 16, 0))
            else if quad == 2 then Emit(left * 16 + v / 4, Scan(s[1..], 3, v % 4, 0))
            else Emit(left * 64 + v, Scan(s[1..], 0, 0, 0))
  {
  }

  /** The first two symbols carry the first byte and the high half of the second. */
  lemma ScanFirst(s: string, a: Byte, high: int)
    requires 0 <= high < 16 && |s| >= 2
    requires s[0] == Symbol(a / 4) && s[1] == Symbol(a % 4 * 16 + high)
    ensures Scan(s, 0, 0, 0) == Emit(a, Scan(s[2..], 2, high, 0))
  {
    var v := a % 4 * 16 + high;
    ScanSymbol(s, a / 4, 0, 0);
    ScanSymbol(s[1..], v, 1, a / 4);
    assert s[1..][1..] == s[2..];
    assert v / 16 == a % 4 && v % 16 == high;
  }

  /** The next symbol carries the low half of the second byte and two bits of the third. */
  lemma ScanSecond(s: string, b: Byte, high: int)
    requires 0 <= high < 4 && |s| >= 1 && s[0] == Symbol(b % 16 * 4 + high)
    ensures Scan(s, 2, b / 16, 0) == Emit(b, Scan(s[1..], 3, high, 0))
  {
    var v := b % 16 * 4 + high;
    ScanSymbol(s, v, 2, b / 16);
    assert v / 4 == b % 16 && v % 4 == high;
  }

  lemma ScanOne(a: Byte)
    ensures Scan(One(a) + "==", 0, 0, 0) == Some([a])
  {
    var s := One(a) + "==";
    ScanFirst(s, a, 0);
    assert s[2..] == "==";
    assert [a] + [] == [a];
  }

  lemma ScanTwo(a: Byte, b: Byte)
    ensures Scan(Two(a, b) + "=", 0, 0, 0) == Some([a, b])
  {
    var s := Two(a, b) + "=";
    ScanFirst(s, a, b / 16);
    ScanSecond(s[2..], b, 0);
    assert s[2..][1..] == "=";
    assert [a] + ([b] + []) == [a, b];
  }

  lemma ScanThree(a: Byte, b: Byte, c: Byte, rest: string)
    requires Scan(rest, 0, 0, 0).Some?
    ensures Scan(Three(a, b, c) + rest, 0, 0, 0) == Some([a, b, c] + Scan(rest, 0, 0, 0).value)
  {
    var s := Three(a, b, c) + rest;
    ScanFirst(s, a, b / 16);
    ScanSecond(s[2..], b, c / 64);
    assert s[2..][1..][1..] == rest;
    var tail := Scan(rest, 0, 0, 0).value;
    assert [a] + ([b] + ([c] + tail)) == [a, b, c] + tail;
  }

  lemma SplitGroup(bytes: seq<Byte>)
    requires |bytes| >= 3
    ensures [bytes[0], bytes[1], bytes[2]] + bytes[3..] == bytes
  {
  }

  lemma {:induction false} ScanEncoded(bytes: seq<Byte>)
    ensures Scan(EncodePadded(bytes), 0, 0, 0) == Some(bytes)
  {
    if |bytes| == 1 {
      ScanOne(bytes[0]);
      assert bytes == [bytes[0]];
    } else if |bytes| == 2 {
      ScanTwo(bytes[0], bytes[1]);
      assert bytes == [bytes[0], bytes[1]];
    } else if |bytes| >= 3 {
      ScanEncoded(bytes[3..]);
      ScanThree(bytes[0], bytes[1], bytes[2], EncodePadded(bytes[3..]));
      SplitGroup(bytes);
    }
  }

  /** A group that is cut short is refused, and so is one that is not filled up. */
  lemma IncompleteIsRefused(a: Byte, b: Byte)
    ensures Scan(One(a), 0, 0, 0) == None && Scan(Two(a, b), 0, 0, 0) == None
  {
    CutShort(One(a));
    CutShort(Two(a, b));
  }

  lemma HalfFilledIsRefused(x: char, y: char)
    requires InAlphabet(x) && InAlphabet(y)
    ensures Scan([x, y, '='], 0, 0, 0) == None
  {
    var s := [x, y, '='];
    assert s[1..] == [y, '='] && [y, '='][1..] == ['='] && ['='][1..] == "";
    var v0, v1 := Value(x).value, Value(y).value;
    assert Scan(['='], 2, v1 % 16, 0) == None;
    assert Scan([y, '='], 1, v0, 0) == None;
  }

  lemma CutShort(s: string)
    requires 2 <= |s| <= 3 && forall c :: c in s ==> InAlphabet(c)
    ensures Scan(s, 0, 0, 0) == None
  {
    assert s[0] in s && s[1] in s && s[1..][1..] == s[2..];
    var v0, v1 := Value(s[0]).value, Value(s[1]).value;
    if |s| == 3 {
      assert s[2] in s && s[2..][0] == s[2] && s[2..][1..] == "";
    }
    assert Scan(s[2..], 2, v1 % 16, 0) == None;
    assert Scan(s[1..], 1, v0, 0) == None;
  }

  /** A character of neither alphabet is passed over wherever it stands. */
  lemma {:induction false} StrayIsSkipped(a: string, c: char, b: string, quad: nat, left: int, pads: nat)
    requires quad < 4 && 0 <= left < 64 && (quad == 2 ==> left < 16) && (quad == 3 ==> left < 4)
    requires !InAlphabet(c) && c !in "+/="
    ensures Scan(a + [c] + b, quad, left, pads) == Scan(a + b, quad, left, pads)
    decreases |a|
  {
    var s, t := a + [c] + b, a + b;
    if a == "" {
      assert s[0] == c && s[1..] == b && t == b;
    } else {
      assert s[0] == t[0] == a[0] && s[1..] == a[1..] + [c] + b && t[1..] == a[1..] + b;
      forall q: nat, l: int, p: nat | q < 4 && 0 <= l < 64 && (q == 2 ==> l < 16) && (q == 3 ==> l < 4)
        ensures Scan(s[1..], q, l, p) == Scan(t[1..], q, l, p)
      {
        StrayIsSkipped(a[1..], c, b, q, l, p);
      }
    }
  }

  /** Stripping and restoring the padding is exact for every byte string. */
  lemma DecodeEncode(bytes: seq<Byte>)
    ensures Decode(Encode(bytes)) == Some(bytes)
    ensures forall c :: c in Encode(bytes) ==> InAlphabet(c)
  {
    EncodeIsBare(bytes);
    EncodedIsBarePlusPadding(bytes);
    ScanEncoded(bytes);
  }
}
