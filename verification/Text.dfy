/** Strings as Rust sees them: Unicode scalar values, their UTF-8 bytes, and `str::trim`. */
module Text {
  import opened Prelude

  /** The UTF-8 bytes of one scalar value. */
  function EncodeScalar(c: char): (bs: Bytes)
    ensures 1 <= |bs| <= 4
  {
    var n := c as int;
    if n < 0x80 then [n]
    else if n < 0x800 then [0xC0 + n / 64, 0x80 + n % 64]
    else if n < 0x1_0000 then [0xE0 + n / 4096, 0x80 + n / 64 % 64, 0x80 + n % 64]
    else [0xF0 + n / 262144, 0x80 + n / 4096 % 64, 0x80 + n / 64 % 64, 0x80 + n % 64]
  }

  /** `str::as_bytes`. */
  function Utf8(s: string): Bytes {
    if s == [] then [] else EncodeScalar(s[0]) + Utf8(s[1..])
  }

  /** `str::len`, which counts bytes. */
  function ByteLen(s: string): nat {
    |Utf8(s)|
  }

  predicate IsAscii(s: string) {
    forall i :: 0 <= i < |s| ==> s[i] as int < 0x80
  }

  /** `to_ascii_uppercase`, on one character. */
  function UpperChar(c: char): char {
    if 'a' <= c <= 'z' then (c as int - 32) as char else c
  }

  /** How many bytes the scalar starting with this lead byte takes. */
  function ScalarWidth(lead: Byte): nat {
    if lead < 0x80 then 1 else if lead < 0xE0 then 2 else if lead < 0xF0 then 3 else 4
  }

  /** The number the payload bits of a 1 to 4 byte sequence spell. */
  function ScalarValue(bs: seq<int>): int
    requires 1 <= |bs| <= 4
  {
    if |bs| == 1 then bs[0]
    else if |bs| == 2 then (bs[0] - 0xC0) * 64 + (bs[1] - 0x80)
    else if |bs| == 3 then (bs[0] - 0xE0) * 4096 + (bs[1] - 0x80) * 64 + (bs[2] - 0x80)
    else (bs[0] - 0xF0) * 262144 + (bs[1] - 0x80) * 4096 + (bs[2] - 0x80) * 64 + (bs[3] - 0x80)
  }

  predicate IsScalar(n: int) {
    0 <= n < 0xD800 || 0xE000 <= n < 0x11_0000
  }

  /** The least number that needs a sequence of this width. */
  function LeastOfWidth(w: nat): nat {
    if w <= 1 then 0 else if w == 2 then 0x80 else if w == 3 then 0x800 else 0x1_0000
  }

  /** Every byte after the lead byte is a continuation byte, and no shorter sequence spells the number. */
  predicate IsWellFormedSequence(bs: Bytes)
    requires 1 <= |bs| <= 4
  {
    && (forall i :: 1 <= i < |bs| ==> 0x80 <= bs[i] < 0xC0)
    && LeastOfWidth(|bs|) <= ScalarValue(bs) && IsScalar(ScalarValue(bs))
  }

  /** `String::from_utf8`: every sequence must be the shortest form of a scalar value. */
  function FromUtf8(bs: Bytes): Option<string> {
    if bs == [] then Some("") else
    var w := ScalarWidth(bs[0]);
    if |bs| < w || !IsWellFormedSequence(bs[..w]) then None else
    match FromUtf8(bs[w..])
    case None => None
    case Some(rest) => Some([ScalarValue(bs[..w]) as char] + rest)
  }

  lemma TwoDigits(n: nat)
    ensures n / 64 * 64 + n % 64 == n
  {
  }

  lemma ThreeDigits(n: nat)
    ensures n / 4096 * 4096 + n / 64 % 64 * 64 + n % 64 == n
  {
    assert n / 64 == n / 4096 * 64 + n / 64 % 64;
  }

  lemma FourDigits(n: nat)
    ensures n / 262144 * 262144 + n / 4096 % 64 * 4096 + n / 64 % 64 * 64 + n % 64 == n
  {
    ThreeDigits(n);
    assert n / 4096 == n / 262144 * 64 + n / 4096 % 64;
  }

  lemma ScalarRoundTrip(c: char)
    ensures var bs := EncodeScalar(c);
            && ScalarWidth(bs[0]) == |bs|
            && IsWellFormedSequence(bs)
            && ScalarValue(bs) as char == c
  {
    var n := c as int;
    if n < 0x800 {
      TwoDigits(n);
    } else if n < 0x1_0000 {
      ThreeDigits(n);
    } else {
      FourDigits(n);
    }
  }

  /** Every string is recovered from its UTF-8 bytes. */
  lemma {:induction false} Utf8RoundTrip(s: string)
    ensures FromUtf8(Utf8(s)) == Some(s)
  {
    if s != [] {
      ScalarRoundTrip(s[0]);
      Utf8RoundTrip(s[1..]);
      var head, bs := EncodeScalar(s[0]), Utf8(s);
      assert bs[..|head|] == head;
      assert bs[|head|..] == Utf8(s[1..]);
      assert [s[0]] + s[1..] == s;
    }
  }

  lemma Utf8Injective(s: string, t: string)
    requires Utf8(s) == Utf8(t)
    ensures s == t
  {
    Utf8RoundTrip(s);
    Utf8RoundTrip(t);
  }

  lemma {:induction false} Utf8Concat(s: string, t: string)
    ensures Utf8(s + t) == Utf8(s) + Utf8(t)
  {
    if s == [] {
      assert s + t == t;
    } else {
      Utf8Concat(s[1..], t);
      assert (s + t)[1..] == s[1..] + t && (s + t)[0] == s[0];
      hide EncodeScalar;
      var head := EncodeScalar(s[0]);
      assert Utf8(s + t) == head + Utf8((s + t)[1..]);
      hide Utf8;
      ConcatAssociates(head, Utf8(s[1..]), Utf8(t));
    }
  }

  /** On ASCII text bytes and characters coincide. */
  lemma {:induction false} AsciiByteLen(s: string)
    requires IsAscii(s)
    ensures ByteLen(s) == |s|
  {
    if s != [] {
      AsciiByteLen(s[1..]);
    }
  }

  /** The Unicode White_Space property, which `str::trim` strips. */
  predicate IsWhitespace(c: char) {
    var n := c as int;
    || 0x09 <= n <= 0x0D || n == 0x20 || n == 0x85 || n == 0xA0 || n == 0x1680
    || 0x2000 <= n <= 0x200A || n == 0x2028 || n == 0x2029 || n == 0x202F || n == 0x205F || n == 0x3000
  }

  function TrimStart(s: string): string {
    if s != [] && IsWhitespace(s[0]) then TrimStart(s[1..]) else s
  }

  function TrimEnd(s: string): string {
    if s != [] && IsWhitespace(s[|s| - 1]) then TrimEnd(s[..|s| - 1]) else s
  }

  function Trim(s: string): string {
    TrimEnd(TrimStart(s))
  }

  /** Text without surrounding whitespace is exactly what trimming leaves alone. */
  lemma {:induction false} TrimFixed(s: string)
    ensures Trim(s) == s <==> s == [] || !(IsWhitespace(s[0]) || IsWhitespace(s[|s| - 1]))
  {
    TrimShrinks(s);
  }

  lemma {:induction false} TrimShrinks(s: string)
    ensures |TrimStart(s)| <= |s| && |TrimEnd(s)| <= |s| && |Trim(s)| <= |s|
    ensures s != [] && IsWhitespace(s[0]) ==> |Trim(s)| < |s|
    ensures s != [] && IsWhitespace(s[|s| - 1]) ==> |TrimEnd(s)| < |s|
    ensures Trim(s) == s <==> TrimStart(s) == s && TrimEnd(s) == s
  {
    TrimStartShrinks(s);
    TrimEndShrinks(s);
    TrimEndShrinks(TrimStart(s));
  }

  lemma {:induction false} TrimStartShrinks(s: string)
    ensures |TrimStart(s)| <= |s|
    ensures s != [] && IsWhitespace(s[0]) ==> |TrimStart(s)| < |s|
  {
    if s != [] && IsWhitespace(s[0]) {
      TrimStartShrinks(s[1..]);
    }
  }

  lemma {:induction false} TrimEndShrinks(s: string)
    ensures |TrimEnd(s)| <= |s|
    ensures s != [] && IsWhitespace(s[|s| - 1]) ==> |TrimEnd(s)| < |s|
  {
    if s != [] && IsWhitespace(s[|s| - 1]) {
      TrimEndShrinks(s[..|s| - 1]);
    }
  }

  /** Trimming is idempotent: what it returns has nothing left to trim. */
  lemma {:induction false} TrimIdempotent(s: string)
    ensures Trim(Trim(s)) == Trim(s)
    ensures TrimStart(Trim(s)) == Trim(s)
  {
    TrimStartClean(s);
    TrimEndClean(TrimStart(s));
  }

  /** Nothing but whitespace. */
  predicate IsBlank(s: string) {
    forall i :: 0 <= i < |s| ==> IsWhitespace(s[i])
  }

  /** `t` is `s` without the whitespace around it. */
  ghost predicate IsTrimmedFrom(s: string, t: string) {
    && (exists front, back :: s == front + t + back && IsBlank(front) && IsBlank(back))
    && (t != "" ==> !IsWhitespace(t[0]) && !IsWhitespace(t[|t| - 1]))
  }

  /** `trim` is the one way to drop whitespace from both ends that leaves none there. */
  lemma TrimIff(s: string, t: string)
    ensures t == Trim(s) <==> IsTrimmedFrom(s, t)
  {
    TrimDropsWhitespace(s);
    if IsTrimmedFrom(s, t) {
      var front, back :| s == front + t + back && IsBlank(front) && IsBlank(back);
      TrimOfPadded(front, t, back);
    }
  }

  lemma TrimDropsWhitespace(s: string)
    ensures IsTrimmedFrom(s, Trim(s))
  {
    TrimIdempotent(s);
    TrimFixed(Trim(s));
    var u := TrimStart(s);
    var front := TrimStartDrops(s);
    var back := TrimEndDrops(u);
    assert s == front + Trim(s) + back;
  }

  lemma {:induction false} TrimStartDrops(s: string) returns (front: string)
    ensures s == front + TrimStart(s) && IsBlank(front)
  {
    if s != [] && IsWhitespace(s[0]) {
      front := TrimStartDrops(s[1..]);
      front := [s[0]] + front;
    } else {
      front := "";
    }
  }

  lemma {:induction false} TrimEndDrops(s: string) returns (back: string)
    ensures s == TrimEnd(s) + back && IsBlank(back)
  {
    if s != [] && IsWhitespace(s[|s| - 1]) {
      back := TrimEndDrops(s[..|s| - 1]);
      back := back + [s[|s| - 1]];
    } else {
      back := "";
    }
  }

  lemma TrimOfPadded(front: string, t: string, back: string)
    requires IsBlank(front) && IsBlank(back)
    requires t != "" ==> !IsWhitespace(t[0]) && !IsWhitespace(t[|t| - 1])
    ensures Trim(front + t + back) == t
  {
    hide IsWhitespace;
    assert front + t + back == front + (t + back);
    if t == "" {
      assert front + (t + back) == (front + back) + "";
      TrimStartSkips(front + back, "");
    } else {
      TrimStartSkips(front, t + back);
      TrimEndSkips(t, back);
    }
  }

  lemma {:induction false} TrimStartSkips(front: string, rest: string)
    requires IsBlank(front) && (rest != "" ==> !IsWhitespace(rest[0]))
    ensures TrimStart(front + rest) == rest
  {
    hide IsWhitespace;
    if front == "" {
      assert front + rest == rest;
    } else {
      TrimStartSkips(front[1..], rest);
      assert (front + rest)[1..] == front[1..] + rest;
    }
  }

  lemma {:induction false} TrimEndSkips(t: string, back: string)
    requires IsBlank(back) && t != "" && !IsWhitespace(t[|t| - 1])
    ensures TrimEnd(t + back) == t
  {
    hide IsWhitespace;
    if back == "" {
      assert t + back == t;
    } else {
      TrimEndSkips(t, back[..|back| - 1]);
      assert (t + back)[..|t + back| - 1] == t + back[..|back| - 1];
    }
  }

  lemma {:induction false} TrimStartClean(s: string)
    ensures TrimStart(s) != [] ==> !IsWhitespace(TrimStart(s)[0])
  {
    if s != [] && IsWhitespace(s[0]) {
      TrimStartClean(s[1..]);
    }
  }

  lemma {:induction false} TrimEndClean(s: string)
    ensures var t := TrimEnd(s);
            && t <= s
            && (t != [] ==> !IsWhitespace(t[|t| - 1]))
  {
    if s != [] && IsWhitespace(s[|s| - 1]) {
      TrimEndClean(s[..|s| - 1]);
    }
  }

  lemma BlankIff(s: string)
    ensures Trim(s) == "" <==> IsBlank(s)
  {
    hide Trim;
    TrimIff(s, "");
    if IsBlank(s) {
      assert s == s + "" + "" && IsBlank("");
    }
    if IsTrimmedFrom(s, "") {
      var front, back :| s == front + "" + back && IsBlank(front) && IsBlank(back);
    }
  }

  /** Starts and ends with a character that is not whitespace. */
  predicate IsPlain(s: string) {
    s != "" && !IsWhitespace(s[0]) && !IsWhitespace(s[|s| - 1])
  }

  lemma PlainIff(s: string)
    ensures IsPlain(s) <==> Trim(s) != "" && Trim(s) == s
  {
    TrimFixed(s);
  }

  lemma PlainEnds(s: string)
    requires s != "" && '0' <= s[0] <= 'z' && '0' <= s[|s| - 1] <= 'z'
    ensures IsPlain(s)
  {
  }
}
