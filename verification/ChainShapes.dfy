/** Shapes of other chains' addresses that both address checks recognise in the same way
    (`patala-solana/src/destination.rs`, `patala-stellar/src/destination.rs`). */
module ChainShapes {
  import opened Prelude
  import opened Text

  predicate IsLowerOrDigit(s: string) {
    forall i :: 0 <= i < |s| ==> 'a' <= s[i] <= 'z' || '0' <= s[i] <= '9'
  }

  predicate IsHex(s: string) {
    forall i :: 0 <= i < |s| ==> '0' <= s[i] <= '9' || 'a' <= s[i] <= 'f' || 'A' <= s[i] <= 'F'
  }

  /** The rest of the text after the first of the given prefixes it starts with. */
  function StripAny(s: string, prefixes: seq<string>): Option<string> {
    if prefixes == [] then None
    else if prefixes[0] <= s then Some(s[|prefixes[0]|..])
    else StripAny(s, prefixes[1..])
  }

  predicate IsBech32Shape(dest: string) {
    var rest := StripAny(dest, ["bc1", "tb1", "bcrt1"]);
    rest.Some? && rest.value != "" && IsLowerOrDigit(rest.value)
  }

  datatype HexChain = Ethereum | SuiOrAptos

  function HexShape(dest: string): Option<HexChain> {
    var hex := StripAny(dest, ["0x", "0X"]);
    if hex.Some? && IsHex(hex.value) && ByteLen(hex.value) == 40 then Some(Ethereum)
    else if hex.Some? && IsHex(hex.value) && ByteLen(hex.value) == 64 then Some(SuiOrAptos)
    else None
  }

  // ------------------------------------------------------------ the same shapes as texts

  /** Every character is a lower-case ASCII letter or a digit. */
  ghost predicate IsBech32Body(s: string) {
    s != "" && forall i: nat :: i < |s| ==> 'a' <= s[i] <= 'z' || '0' <= s[i] <= '9'
  }

  /** A Bitcoin prefix followed by lower-case letters and digits, at least one. */
  ghost predicate IsBech32Text(s: string) {
    exists rest: string :: IsBech32Body(rest) && (s == "bc1" + rest || s == "tb1" + rest || s == "bcrt1" + rest)
  }

  /** This many hexadecimal digits, in any letter case. */
  ghost predicate IsHexBody(s: string, n: nat) {
    |s| == n && forall i: nat :: i < |s| ==> '0' <= s[i] <= '9' || 'A' <= s[i] <= 'F' || 'a' <= s[i] <= 'f'
  }

  ghost predicate IsHexText(s: string, n: nat) {
    exists h: string :: IsHexBody(h, n) && (s == "0x" + h || s == "0X" + h)
  }

  function HexDigits(chain: HexChain): nat {
    match chain
    case Ethereum => 40
    case SuiOrAptos => 64
  }

  lemma StripIff(s: string, prefixes: seq<string>, rest: string)
    requires forall i: nat, j: nat :: i < j < |prefixes| ==> !(prefixes[i] <= s && prefixes[j] <= s)
    ensures StripAny(s, prefixes) == Some(rest) <==> exists i: nat :: i < |prefixes| && s == prefixes[i] + rest
  {
    if prefixes != [] {
      assert forall i: nat :: i < |prefixes[1..]| ==> prefixes[1..][i] == prefixes[i + 1];
      StripIff(s, prefixes[1..], rest);
      if exists i: nat :: i < |prefixes| && s == prefixes[i] + rest {
        var i: nat :| i < |prefixes| && s == prefixes[i] + rest;
        assert i > 0 ==> s == prefixes[1..][i - 1] + rest;
      }
      if exists i: nat :: i < |prefixes[1..]| && s == prefixes[1..][i] + rest {
        var i: nat :| i < |prefixes[1..]| && s == prefixes[1..][i] + rest;
        assert s == prefixes[i + 1] + rest;
      }
      if prefixes[0] <= s {
        assert s == prefixes[0] + s[|prefixes[0]|..];
      }
    }
  }

  lemma Bech32Prefix(s: string, rest: string)
    ensures StripAny(s, ["bc1", "tb1", "bcrt1"]) == Some(rest) <==> s == "bc1" + rest || s == "tb1" + rest || s == "bcrt1" + rest
  {
    var ps := ["bc1", "tb1", "bcrt1"];
    assert ps[0][0] != ps[1][0] && ps[1][0] != ps[2][0] && ps[0][2] != ps[2][2];
    StripIff(s, ps, rest);
    assert ps[0] == "bc1" && ps[1] == "tb1" && ps[2] == "bcrt1";
  }

  lemma HexPrefix(s: string, rest: string)
    ensures StripAny(s, ["0x", "0X"]) == Some(rest) <==> s == "0x" + rest || s == "0X" + rest
  {
    var ps := ["0x", "0X"];
    assert ps[0][1] != ps[1][1];
    StripIff(s, ps, rest);
    assert ps[0] == "0x" && ps[1] == "0X";
  }

  lemma Bech32Iff(s: string)
    ensures IsBech32Shape(s) <==> IsBech32Text(s)
  {
    hide StripAny;
    forall rest: string
      ensures StripAny(s, ["bc1", "tb1", "bcrt1"]) == Some(rest) <==> s == "bc1" + rest || s == "tb1" + rest || s == "bcrt1" + rest
    {
      Bech32Prefix(s, rest);
    }
    var found := StripAny(s, ["bc1", "tb1", "bcrt1"]);
    assert found.Some? ==> (IsLowerOrDigit(found.value) && found.value != "" <==> IsBech32Body(found.value));
    assert forall rest: string :: IsBech32Body(rest) ==> IsLowerOrDigit(rest);
  }

  lemma Bech32Plain(s: string)
    requires IsBech32Text(s)
    ensures s != "" && ByteLen(s) == |s| && IsAscii(s) && (s[0] == 'b' || s[0] == 't') && ('a' <= s[|s| - 1] <= 'z' || '0' <= s[|s| - 1] <= '9')
  {
    hide ByteLen;
    var rest :| IsBech32Body(rest) && (s == "bc1" + rest || s == "tb1" + rest || s == "bcrt1" + rest);
    assert s[|s| - 1] == rest[|rest| - 1];
    AsciiByteLen(s);
  }

  lemma HexShapeIff(s: string, chain: HexChain)
    ensures HexShape(s) == Some(chain) <==> IsHexText(s, HexDigits(chain))
  {
    hide StripAny, ByteLen;
    forall rest: string
      ensures StripAny(s, ["0x", "0X"]) == Some(rest) <==> s == "0x" + rest || s == "0X" + rest
      ensures IsHex(rest) ==> ByteLen(rest) == |rest|
    {
      HexPrefix(s, rest);
      if IsHex(rest) {
        AsciiByteLen(rest);
      }
    }
    var found := StripAny(s, ["0x", "0X"]);
    assert found.Some? ==> (IsHex(found.value) && |found.value| == HexDigits(chain) <==> IsHexBody(found.value, HexDigits(chain)));
    assert forall rest: string :: IsHexBody(rest, HexDigits(chain)) ==> IsHex(rest) && |rest| == HexDigits(chain);
  }

  lemma HexPlain(s: string, n: nat)
    requires IsHexText(s, n) && n > 0
    ensures s != "" && |s| == n + 2 && s[0] == '0'
    ensures '0' <= s[|s| - 1] <= '9' || 'A' <= s[|s| - 1] <= 'F' || 'a' <= s[|s| - 1] <= 'f'
  {
    var h :| IsHexBody(h, n) && (s == "0x" + h || s == "0X" + h);
    assert s[|s| - 1] == h[n - 1];
  }
}
