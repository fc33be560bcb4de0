/** The encoding of machine ids in topics. A `std::string` is a string whose characters
    are bytes; `char` is signed, so a byte from 0x80 on is a negative number. */
module IdEncode {
  import opened OpcUa

  type Text = s: string | forall i :: 0 <= i < |s| ==> s[i] as int < 256

  const WHITELIST := {'-', '.', '~', ':', ';', '='}
  const DIGITS := "0123456789ABCDEF"

  /** `isalnum` in the "C" locale. */
  predicate IsAlnum(c: char) {
    'a' <= c <= 'z' || 'A' <= c <= 'Z' || '0' <= c <= '9'
  }

  predicate RequireEncoding(c: char) {
    !IsAlnum(c) && c !in WHITELIST
  }

  // ---------- what the stream writes ----------

  /** `static_cast<int>(c)`. */
  function SignedValue(c: char): int {
    if c as int < 128 then c as int else c as int - 256
  }

  /** `std::hex << std::uppercase` of an `int`: the digits of its 32-bit pattern. */
  function Hex(n: nat): (r: string)
    ensures |r| >= 1
  {
    if n < 16 then [DIGITS[n]] else Hex(n / 16) + [DIGITS[n % 16]]
  }

  function Pattern(v: int): nat
    requires -UINT32_MOD <= v < UINT32_MOD
  {
    if v < 0 then v + UINT32_MOD else v
  }

  /** `std::setw(2) << std::setfill('0')`. */
  function Padded(s: string): string {
    if |s| < 2 then seq(2 - |s|, _ => '0') + s else s
  }

  function EncodeChar(c: char): string
    requires c as int < 256
  {
    if RequireEncoding(c) then "_" + Padded(Hex(Pattern(SignedValue(c)))) else [c]
  }

  function Encode(s: Text): string {
    if s == "" then "" else Encode(s[..|s| - 1]) + EncodeChar(s[|s| - 1])
  }

  /** `IdEncode`, writing one character after the other. */
  method EncodeId(id: Text) returns (ss: string)
    ensures ss == Encode(id)
  {
    ss := "";
    for i := 0 to |id|
      invariant ss == Encode(id[..i])
    {
      if RequireEncoding(id[i]) {
        ss := ss + "_" + Padded(Hex(Pattern(SignedValue(id[i]))));
      } else {
        ss := ss + [id[i]];
      }
      assert id[..i + 1][..i] == id[..i];
    }
    assert id[..|id|] == id;
  }

  // ---------- reading it back ----------

  function DigitValue(c: char): (v: nat)
    ensures v < 16
  {
    if '0' <= c <= '9' then c as int - '0' as int
    else if 'A' <= c <= 'F' then c as int - 'A' as int + 10
    else 0
  }

  function FromDigits(hi: char, lo: char): char {
    (DigitValue(hi) * 16 + DigitValue(lo)) as char
  }

  /** After an underscore come two digits, or eight if the first is `F`. */
  function Decode(t: string): string {
    if t == "" then ""
    else if t[0] != '_' then [t[0]] + Decode(t[1..])
    else if |t| >= 9 && t[1] == 'F' then [FromDigits(t[7], t[8])] + Decode(t[9..])
    else if |t| >= 3 then [FromDigits(t[1], t[2])] + Decode(t[3..])
    else ""
  }

  lemma DigitRoundTrip(n: nat)
    requires n < 16
    ensures DigitValue(DIGITS[n]) == n && IsAlnum(DIGITS[n])
    ensures DIGITS[n] == 'F' <==> n == 15
  {
    assert DIGITS == ['0', '1', '2', '3', '4', '5', '6', '7', '8', '9', 'A', 'B', 'C', 'D', 'E', 'F'];
  }

  lemma TwoDigits(n: nat)
    requires n < 256
    ensures Padded(Hex(n)) == [DIGITS[n / 16], DIGITS[n % 16]]
  {
  }

  lemma NegativeDigits(n: nat)
    requires 128 <= n < 256
    ensures Hex(UINT32_MOD - 256 + n) == "FFFFFF" + [DIGITS[n / 16], DIGITS[n % 16]]
  {
    var v := UINT32_MOD - 256 + n;
    assert v / 16 == 0xFFFFFF0 + n / 16 && v % 16 == n % 16;
    assert (v / 16) / 16 == 0xFFFFFF && (v / 16) % 16 == n / 16;
    assert Hex(0xFFF) == "FFF";
    assert Hex(0xFFFF) == "FFFF";
    assert Hex(0xFFFFF) == "FFFFF";
    assert Hex(0xFFFFFF) == "FFFFFF";
  }

  /** The code of a character: two digits below 0x80, eight from 0x80 on, the first of them
      `F` only then. */
  predicate IsCode(c: char, code: string)
    requires c as int < 256
  {
    var n := c as int;
    var tail := ["0123456789ABCDEF"[n / 16], "0123456789ABCDEF"[n % 16]];
    code == if IsPlain(c) then [c] else if n < 128 then "_" + tail else "_FFFFFF" + tail
  }

  /** Letters, digits and `- . ~ : ; =` are written as they are. */
  predicate IsPlain(c: char) {
    || 'a' <= c <= 'z' || 'A' <= c <= 'Z' || '0' <= c <= '9'
    || c == '-' || c == '.' || c == '~' || c == ':' || c == ';' || c == '='
  }

  lemma CharShape(c: char)
    requires c as int < 256
    ensures IsCode(c, EncodeChar(c))
  {
    if c as int < 128 {
      TwoDigits(c as int);
    } else {
      NegativeDigits(c as int);
      assert "_" + "FFFFFF" == "_FFFFFF";
    }
  }

  lemma DecodeShort(h: char, l: char, rest: string)
    requires h != 'F'
    ensures Decode("_" + [h, l] + rest) == [FromDigits(h, l)] + Decode(rest)
  {
    var t := "_" + [h, l] + rest;
    assert t[3..] == rest;
  }

  lemma DecodeLong(h: char, l: char, rest: string)
    ensures Decode("_FFFFFF" + [h, l] + rest) == [FromDigits(h, l)] + Decode(rest)
  {
    var t := "_FFFFFF" + [h, l] + rest;
    assert t[9..] == rest;
  }

  lemma DecodePlain(c: char, rest: string)
    requires c != '_'
    ensures Decode([c] + rest) == [c] + Decode(rest)
  {
    assert ([c] + rest)[1..] == rest;
  }

  lemma DecodeCode(c: char, code: string, rest: string)
    requires c as int < 256 && IsCode(c, code)
    ensures Decode(code + rest) == [c] + Decode(rest)
  {
    var n := c as int;
    if IsPlain(c) {
      DecodePlain(c, rest);
    } else {
      DigitRoundTrip(n / 16);
      DigitRoundTrip(n % 16);
      assert FromDigits(DIGITS[n / 16], DIGITS[n % 16]) == c;
      if n < 128 {
        DecodeShort(DIGITS[n / 16], DIGITS[n % 16], rest);
      } else {
        DecodeLong(DIGITS[n / 16], DIGITS[n % 16], rest);
      }
    }
  }

  lemma DecodeOneMore(encoded: string, front: string, c: char, code: string, rest: string)
    requires c as int < 256 && IsCode(c, code)
    requires Decode(encoded + (code + rest)) == front + Decode(code + rest)
    ensures Decode((encoded + code) + rest) == (front + [c]) + Decode(rest)
  {
    assert (encoded + code) + rest == encoded + (code + rest);
    DecodeCode(c, code, rest);
    assert (front + [c]) + Decode(rest) == front + ([c] + Decode(rest));
  }

  lemma {:induction false} DecodeAppend(s: Text, rest: string)
    ensures Decode(Encode(s) + rest) == s + Decode(rest)
  {
    if s == "" {
      assert "" + rest == rest;
    } else {
      var front, c := s[..|s| - 1], s[|s| - 1];
      var code := LastCode(s);
      DecodeAppend(front, code + rest);
      DecodeOneMore(Encode(front), front, c, code, rest);
      assert s == front + [c];
    }
  }

  lemma LastCode(s: Text) returns (code: string)
    requires s != ""
    ensures IsCode(s[|s| - 1], code) && Encode(s) == Encode(s[..|s| - 1]) + code
  {
    code := EncodeChar(s[|s| - 1]);
    CharShape(s[|s| - 1]);
  }

  /** The encoding loses nothing, for every byte string. */
  lemma DecodeEncode(s: Text)
    ensures Decode(Encode(s)) == s
  {
    DecodeAppend(s, "");
    assert Encode(s) + "" == Encode(s);
  }

  /** Distinct ids stay distinct. */
  lemma EncodeInjective(a: Text, b: Text)
    ensures Encode(a) == Encode(b) <==> a == b
  {
    DecodeEncode(a);
    DecodeEncode(b);
  }

  /** No character's code begins another one's. */
  lemma PrefixFree(a: char, b: char, x: string, y: string)
    requires a as int < 256 && b as int < 256
    requires EncodeChar(a) + x == EncodeChar(b) + y
    ensures a == b
  {
    CharShape(a);
    CharShape(b);
    DecodeCode(a, EncodeChar(a), x);
    DecodeCode(b, EncodeChar(b), y);
    assert ([a] + Decode(x))[0] == ([b] + Decode(y))[0];
  }

  predicate TopicSafe(c: char) {
    IsAlnum(c) || c in WHITELIST || c == '_'
  }

  lemma CodeIsTopicSafe(c: char, code: string)
    requires c as int < 256 && IsCode(c, code)
    ensures AllTopicSafe(code)
  {
    DigitRoundTrip(c as int / 16);
    DigitRoundTrip(c as int % 16);
  }

  predicate AllTopicSafe(s: string) {
    forall i :: 0 <= i < |s| ==> TopicSafe(s[i])
  }

  lemma {:induction false} EncodedIsAllSafe(s: Text)
    ensures AllTopicSafe(Encode(s))
  {
    if s != "" {
      EncodedIsAllSafe(s[..|s| - 1]);
      var code := LastCode(s);
      CodeIsTopicSafe(s[|s| - 1], code);
      SafeSum(Encode(s[..|s| - 1]), code, Encode(s));
    }
  }

  lemma SafeSum(a: string, b: string, sum: string)
    requires AllTopicSafe(a) && AllTopicSafe(b) && sum == a + b
    ensures AllTopicSafe(sum)
  {
  }

  /** The output has none of the characters that mean something in a topic (section 4.7.1
      of MQTT 3.1.1): separators `/` and wildcards `+`, `#`. */
  lemma EncodedIsTopicSafe(s: Text)
    ensures forall x :: x in Encode(s) ==> TopicSafe(x)
    ensures '/' !in Encode(s) && '+' !in Encode(s) && '#' !in Encode(s)
  {
    EncodedIsAllSafe(s);
  }
}
