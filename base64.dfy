/** The `Ciphertext` text codec: `to_base64` is the standard base64 encoding of
    section 4 of RFC 4648 (alphabet `A-Z a-z 0-9 + /`, `=` padding), and
    `from_base64` is CPython's non-validating `b64decode`, which skips every
    character outside the alphabet and stops at the `=` that completes a
    quantum.  `StrictDecode` is the validating decoder the docstring of
    `from_base64` describes; `from_dict` uses it (see README, Findings). */
module Base64 {
  import opened Wrappers
  import opened Text

  type byte = x: int | 0 <= x < 256
  type sextet = x: int | 0 <= x < 64

  predicate InAlphabet(c: char) {
    IsUpper(c) || IsLower(c) || IsDigit(c) || c == '+' || c == '/'
  }

  /** Text made of alphabet characters only. */
  predicate Alphabetic(s: string) {
    forall i :: 0 <= i < |s| ==> InAlphabet(s[i])
  }

  function CharOf(v: sextet): (c: char)
    ensures InAlphabet(c)
  {
    if v < 26 then ('A' as int + v) as char
    else if v < 52 then ('a' as int + (v - 26)) as char
    else if v < 62 then ('0' as int + (v - 52)) as char
    else if v == 62 then '+'
    else '/'
  }

  function ValueOf(c: char): (v: sextet)
    requires InAlphabet(c)
    ensures CharOf(v) == c
  {
    if IsUpper(c) then c as int - 'A' as int
    else if IsLower(c) then c as int - 'a' as int + 26
    else if IsDigit(c) then c as int - '0' as int + 52
    else if c == '+' then 62
    else 63
  }

  lemma ValueOfCharOf(v: sextet)
    ensures ValueOf(CharOf(v)) == v
  {
  }

  /** The four characters that encode three bytes. */
  function EncodeGroup(x: byte, y: byte, z: byte): string {
    [CharOf(x / 4), CharOf((x % 4) * 16 + y / 16), CharOf((y % 16) * 4 + z / 64), CharOf(z % 64)]
  }

  /** `base64.b64encode`: full groups of three bytes, then a padded tail. */
  function Encode(b: seq<byte>): (s: string)
    ensures |s| == 4 * ((|b| + 2) / 3)
    ensures forall i :: 0 <= i < |s| ==> InAlphabet(s[i]) || s[i] == '='
    decreases |b|
  {
    if |b| == 0 then ""
    else if |b| == 1 then [CharOf(b[0] / 4), CharOf((b[0] % 4) * 16), '=', '=']
    else if |b| == 2 then [CharOf(b[0] / 4), CharOf((b[0] % 4) * 16 + b[1] / 16), CharOf((b[1] % 16) * 4), '=']
    else EncodeGroup(b[0], b[1], b[2]) + Encode(b[3..])
  }

  datatype Base64Error =
    | NotAscii              // `value.encode('ascii')` raised
    | ExcessDataCharacter   // one data character beyond a whole number of quanta
    | IncorrectPadding      // two or three data characters left without their padding
    | NonAlphabetCharacter  // strict decoding only: a character outside the alphabet
    | BadLength             // strict decoding only: length not a multiple of four

  /** Decoder state between characters: how many data characters of the current
      quantum were seen (`quad_pos`), the bits still owed to the next byte
      (`leftchar`) and the bytes produced so far. */
  datatype State = State(quad: nat, left: nat, out: seq<byte>)

  function LeftLimit(quad: nat): nat {
    if quad == 1 then 64 else if quad == 2 then 16 else if quad == 3 then 4 else 1
  }

  predicate Good(st: State) {
    st.quad < 4 && st.left < LeftLimit(st.quad)
  }

  /** Consuming one data character of value `v`. */
  function Step(st: State, v: sextet): (st': State)
    requires Good(st)
    ensures Good(st') && st'.quad == (st.quad + 1) % 4
  {
    if st.quad == 0 then State(1, v, st.out)
    else if st.quad == 1 then State(2, v % 16, st.out + [st.left * 4 + v / 16])
    else if st.quad == 2 then State(3, v % 4, st.out + [st.left * 16 + v / 4])
    else State(0, 0, st.out + [st.left * 64 + v])
  }

  /** `binascii.a2b_base64(..., strict_mode=False)`: `=` before the third data
      character of a quantum is skipped, and `pads` counts the `=` seen since
      the last data character; decoding ends as soon as the quantum is complete
      (`quad + pads >= 4`).  Other characters outside the alphabet are skipped. */
  function Run(s: string, st: State, pads: nat): (r: Result<seq<byte>, Base64Error>)
    requires Good(st)
    ensures r.Err? ==> r.error == ExcessDataCharacter || r.error == IncorrectPadding
    decreases |s|
  {
    if s == [] then
      if st.quad == 0 then Ok(st.out)
      else if st.quad == 1 then Err(ExcessDataCharacter)
      else Err(IncorrectPadding)
    else if s[0] == '=' then
      if st.quad >= 2 && st.quad + pads + 1 >= 4 then Ok(st.out)
      else Run(s[1..], st, if st.quad >= 2 then pads + 1 else pads)
    else if !InAlphabet(s[0]) then Run(s[1..], st, pads)
    else Run(s[1..], Step(st, ValueOf(s[0])), 0)
  }

  const Start := State(0, 0, [])

  predicate AllAscii(s: string) { forall i :: 0 <= i < |s| ==> IsAscii(s[i]) }

  lemma AllAsciiAppend(a: string, b: string)
    requires AllAscii(a) && AllAscii(b)
    ensures AllAscii(a + b)
  {
    forall i | 0 <= i < |a + b| ensures IsAscii((a + b)[i]) {
      if i < |a| {
        assert (a + b)[i] == a[i];
      } else {
        assert (a + b)[i] == b[i - |a|];
      }
    }
  }

  /** `Ciphertext.from_base64` as written: non-validating `b64decode`. */
  function Decode(s: string): (r: Result<seq<byte>, Base64Error>)
    ensures r == Err(NotAscii) <==> !AllAscii(s)
    ensures r.Err? && AllAscii(s) ==> r.error == ExcessDataCharacter || r.error == IncorrectPadding
  {
    if !AllAscii(s) then Err(NotAscii) else Run(s, Start, 0)
  }

  // ---------------------------------------------------------------------------
  // Round trip

  lemma GroupRun(x: byte, y: byte, z: byte, rest: string, out: seq<byte>)
    ensures Run(EncodeGroup(x, y, z) + rest, State(0, 0, out), 0) == Run(rest, State(0, 0, out + [x, y, z]), 0)
  {
    var s := EncodeGroup(x, y, z) + rest;
    var v0, v1, v2, v3 := x / 4, (x % 4) * 16 + y / 16, (y % 16) * 4 + z / 64, z % 64;
    ValueOfCharOf(v0); ValueOfCharOf(v1); ValueOfCharOf(v2); ValueOfCharOf(v3);
    var st1 := State(1, v0, out);
    var st2 := State(2, y / 16, out + [x]);
    var st3 := State(3, z / 64, out + [x, y]);
    assert Step(State(0, 0, out), v0) == st1;
    assert Step(st1, v1) == st2;
    assert Step(st2, v2) == st3;
    assert Step(st3, v3) == State(0, 0, out + [x, y, z]);
    var s1, s2, s3 := s[1..], s[2..], s[3..];
    assert s1[1..] == s2 && s2[1..] == s3 && s3[1..] == rest;
    assert s[0] == CharOf(v0) && s1[0] == CharOf(v1) && s2[0] == CharOf(v2) && s3[0] == CharOf(v3);
    assert Run(s, State(0, 0, out), 0) == Run(s1, st1, 0);
    assert Run(s1, st1, 0) == Run(s2, st2, 0);
    assert Run(s2, st2, 0) == Run(s3, st3, 0);
    assert Run(s3, st3, 0) == Run(rest, State(0, 0, out + [x, y, z]), 0);
  }

  lemma OneRun(x: byte, rest: string, out: seq<byte>)
    ensures Run(Encode([x]) + rest, State(0, 0, out), 0) == Ok(out + [x])
  {
    var s := Encode([x]) + rest;
    var v0, v1 := x / 4, (x % 4) * 16;
    ValueOfCharOf(v0); ValueOfCharOf(v1);
    var st1, st2 := State(1, v0, out), State(2, 0, out + [x]);
    assert Step(State(0, 0, out), v0) == st1;
    assert Step(st1, v1) == st2;
    var s1, s2, s3 := s[1..], s[2..], s[3..];
    assert s1[1..] == s2 && s2[1..] == s3;
    assert s[0] == CharOf(v0) && s1[0] == CharOf(v1) && s2[0] == '=' && s3[0] == '=';
    assert Run(s, State(0, 0, out), 0) == Run(s1, st1, 0);
    assert Run(s1, st1, 0) == Run(s2, st2, 0);
    assert Run(s2, st2, 0) == Run(s3, st2, 1);
  }

  lemma TwoRun(x: byte, y: byte, rest: string, out: seq<byte>)
    ensures Run(Encode([x, y]) + rest, State(0, 0, out), 0) == Ok(out + [x, y])
  {
    var s := Encode([x, y]) + rest;
    var v0, v1, v2 := x / 4, (x % 4) * 16 + y / 16, (y % 16) * 4;
    ValueOfCharOf(v0); ValueOfCharOf(v1); ValueOfCharOf(v2);
    var st1, st2, st3 := State(1, v0, out), State(2, y / 16, out + [x]), State(3, 0, out + [x, y]);
    assert Step(State(0, 0, out), v0) == st1;
    assert Step(st1, v1) == st2;
    assert Step(st2, v2) == st3;
    var s1, s2, s3 := s[1..], s[2..], s[3..];
    assert s1[1..] == s2 && s2[1..] == s3;
    assert s[0] == CharOf(v0) && s1[0] == CharOf(v1) && s2[0] == CharOf(v2) && s3[0] == '=';
    assert Run(s, State(0, 0, out), 0) == Run(s1, st1, 0);
    assert Run(s1, st1, 0) == Run(s2, st2, 0);
    assert Run(s2, st2, 0) == Run(s3, st3, 0);
  }

  /** Decoding a padded tail of one or two bytes. */
  lemma TailRun(b: seq<byte>, rest: string, out: seq<byte>)
    requires |b| == 1 || |b| == 2
    ensures Run(Encode(b) + rest, State(0, 0, out), 0) == Ok(out + b)
  {
    if |b| == 1 {
      assert b == [b[0]];
      OneRun(b[0], rest, out);
    } else {
      assert b == [b[0], b[1]];
      TwoRun(b[0], b[1], rest, out);
    }
  }

  lemma ModThree(n: int)
    requires n >= 3
    ensures (n - 3) % 3 == n % 3
  {
  }

  lemma EncodeCons(b: seq<byte>)
    requires |b| >= 3
    ensures Encode(b) == EncodeGroup(b[0], b[1], b[2]) + Encode(b[3..])
  {
  }

  lemma {:induction false} EncodeRun(b: seq<byte>, rest: string, out: seq<byte>)
    ensures Run(Encode(b) + rest, State(0, 0, out), 0) ==
            if |b| % 3 == 0 then Run(rest, State(0, 0, out + b), 0) else Ok(out + b)
    decreases |b|
  {
    if |b| == 0 {
      assert Encode(b) + rest == rest;
      assert out + b == out;
    } else if |b| < 3 {
      TailRun(b, rest, out);
    } else {
      var out', t := out + [b[0], b[1], b[2]], b[3..];
      var r := Run(Encode(t) + rest, State(0, 0, out'), 0);
      assert Run(Encode(b) + rest, State(0, 0, out), 0) == r by {
        EncodeRunGroup(b, rest, out);
      }
      assert r == if |t| % 3 == 0 then Run(rest, State(0, 0, out + b), 0) else Ok(out + b) by {
        EncodeRun(t, rest, out');
        assert out' + t == out + b;
      }
      assert |t| % 3 == |b| % 3 by {
        ModThree(|b|);
      }
    }
  }

  /** Decoding the first group of an encoding. */
  lemma EncodeRunGroup(b: seq<byte>, rest: string, out: seq<byte>)
    requires |b| >= 3
    ensures Run(Encode(b) + rest, State(0, 0, out), 0)
         == Run(Encode(b[3..]) + rest, State(0, 0, out + [b[0], b[1], b[2]]), 0)
  {
    var tail := Encode(b[3..]);
    EncodeCons(b);
    assert Encode(b) + rest == EncodeGroup(b[0], b[1], b[2]) + (tail + rest);
    GroupRun(b[0], b[1], b[2], tail + rest, out);
  }

  lemma EncodeAscii(b: seq<byte>)
    ensures AllAscii(Encode(b))
  {
  }

  /** `from_base64(to_base64(b)) == b` for every byte string. */
  lemma DecodeEncode(b: seq<byte>)
    ensures Decode(Encode(b)) == Ok(b)
  {
    var s := Encode(b);
    EncodeAscii(b);
    EncodeRun(b, "", []);
    assert s + "" == s;
    assert [] + b == b;
  }

  /** The `=` of `s` are exactly its last `p` characters. */
  predicate PaddedBy(s: string, p: nat) {
    && p <= |s|
    && forall i :: 0 <= i < |s| ==> (s[i] == '=' <==> i >= |s| - p)
  }

  /** Only the last `(3 - |b| % 3) % 3` characters of an encoding are `=`. */
  lemma {:induction false} EncodePadding(b: seq<byte>)
    ensures PaddedBy(Encode(b), (3 - |b| % 3) % 3)
    decreases |b|
  {
    if |b| >= 3 {
      EncodeCons(b);
      EncodePadding(b[3..]);
      ModThree(|b|);
      var g, t := EncodeGroup(b[0], b[1], b[2]), Encode(b[3..]);
      assert |t| >= (3 - |b| % 3) % 3 by {
        if |b| > 3 { assert |t| >= 4; }
      }
      forall i | 0 <= i < |g + t|
        ensures (g + t)[i] == '=' <==> i >= |g + t| - (3 - |b| % 3) % 3
      {
        if i >= 4 {
          assert (g + t)[i] == t[i - 4];
        } else {
          assert (g + t)[i] == g[i];
          assert InAlphabet(g[0]) && InAlphabet(g[1]) && InAlphabet(g[2]) && InAlphabet(g[3]);
        }
      }
    }
  }

  // ---------------------------------------------------------------------------
  // What the lenient decoder does with other input

  /** The characters the lenient decoder looks at: the alphabet and `=`. */
  function Keep(s: string): (r: string)
    ensures forall c :: c in r ==> InAlphabet(c) || c == '='
    ensures forall c :: c in r ==> c in s
  {
    if s == [] then []
    else (if InAlphabet(s[0]) || s[0] == '=' then [s[0]] else []) + Keep(s[1..])
  }

  lemma {:induction false} RunKeep(s: string, st: State, pads: nat)
    requires Good(st)
    ensures Run(s, st, pads) == Run(Keep(s), st, pads)
    decreases |s|
  {
    if s != [] {
      var k := Keep(s);
      if InAlphabet(s[0]) || s[0] == '=' {
        assert k[0] == s[0] && k[1..] == Keep(s[1..]);
        if s[0] == '=' {
          RunKeep(s[1..], st, if st.quad >= 2 then pads + 1 else pads);
        } else {
          RunKeep(s[1..], Step(st, ValueOf(s[0])), 0);
        }
      } else {
        assert k == Keep(s[1..]);
        RunKeep(s[1..], st, pads);
      }
    }
  }

  /** `b64decode` without `validate=True` ignores every character outside the
      alphabet and `=`: decoding the text equals decoding what remains once
      those characters are removed. */
  lemma DecodeIgnoresForeign(s: string)
    requires AllAscii(s)
    ensures Decode(s) == Decode(Keep(s))
  {
    RunKeep(s, Start, 0);
    var k := Keep(s);
    forall i | 0 <= i < |k| ensures IsAscii(k[i]) {
      assert k[i] in k;
    }
  }

  /** The decoder state after a run of data characters. */
  function Feed(body: string, st: State): (st': State)
    requires Good(st) && Alphabetic(body)
    ensures Good(st') && st'.quad == (st.quad + |body|) % 4
    decreases |body|
  {
    if body == [] then st
    else
      QuadAdvance(st.quad, |body|);
      Feed(body[1..], Step(st, ValueOf(body[0])))
  }

  lemma QuadAdvance(q: nat, n: nat)
    requires q < 4 && n >= 1
    ensures ((q + 1) % 4 + (n - 1)) % 4 == (q + n) % 4
  {
    if q == 3 {
      assert (q + 1) % 4 + (n - 1) == q + n - 4;
    }
  }

  lemma {:induction false} RunFeed(body: string, rest: string, st: State, pads: nat)
    requires Good(st) && Alphabetic(body)
    ensures Run(body + rest, st, pads) == Run(rest, Feed(body, st), if body == [] then pads else 0)
    decreases |body|
  {
    if body == [] {
      assert body + rest == rest;
    } else {
      var s := body + rest;
      assert s[0] == body[0];
      assert s[1..] == body[1..] + rest;
      RunFeed(body[1..], rest, Step(st, ValueOf(body[0])), 0);
    }
  }

  /** Without any `=`, the text decodes exactly when its alphabet characters
      form whole quanta; one character over is an excess-data error, two or
      three over an incorrect-padding error. */
  lemma DecodeUnpadded(s: string)
    requires AllAscii(s) && '=' !in s
    ensures var n := |Keep(s)| % 4;
      && (Decode(s).Ok? <==> n == 0)
      && (Decode(s) == Err(ExcessDataCharacter) <==> n == 1)
      && (Decode(s) == Err(IncorrectPadding) <==> n >= 2)
  {
    var k := Keep(s);
    RunKeep(s, Start, 0);
    assert Alphabetic(k) by {
      forall i | 0 <= i < |k| ensures InAlphabet(k[i]) {
        assert k[i] in k;
      }
    }
    RunFeed(k, "", Start, 0);
    assert k + "" == k;
  }

  /** Text made only of characters outside the alphabet decodes, silently, to
      no bytes at all. */
  lemma DecodeForeignIsEmpty(s: string)
    requires AllAscii(s)
    requires forall c :: c in s ==> !InAlphabet(c) && c != '='
    ensures Decode(s) == Ok([])
  {
    RunKeep(s, Start, 0);
  }

  /** Decoding stops at the `=` that completes a quantum: whatever follows is
      never looked at. */
  lemma DecodeStopsAtPadding(b: seq<byte>, rest: string)
    requires |b| % 3 != 0
    requires AllAscii(rest)
    ensures Decode(Encode(b) + rest) == Ok(b)
  {
    EncodeAscii(b);
    AllAsciiAppend(Encode(b), rest);
    EncodeRun(b, rest, []);
    assert [] + b == b;
  }

  // ---------------------------------------------------------------------------
  // Validating decoding

  /** Well-formed base64 text in the sense of section 4 of RFC 4648: whole
      quanta of alphabet characters, the last of which may end in one or two `=`. */
  predicate WellFormed(s: string) {
    var body := RStrip(s, '=');
    && |s| % 4 == 0
    && |s| - |body| <= 2
    && Alphabetic(body)
  }

  /** `from_base64` as its docstring describes it: text that is not valid
      base64 is refused with an error instead of being decoded leniently. */
  function StrictDecode(s: string): (r: Result<seq<byte>, Base64Error>)
    ensures r.Ok? ==> WellFormed(s) && r == Decode(s)
    ensures !AllAscii(s) ==> r == Err(NotAscii)
  {
    var body := RStrip(s, '=');
    if !AllAscii(s) then Err(NotAscii)
    else if !Alphabetic(body) then Err(NonAlphabetCharacter)
    else if |s| - |body| > 2 then Err(IncorrectPadding)
    else if |s| % 4 != 0 then Err(BadLength)
    else Run(s, Start, 0)
  }

  /** One or two `=` that complete the quantum end decoding successfully. */
  lemma RunPadding(pad: string, st: State)
    requires Good(st) && |pad| <= 2 && (st.quad + |pad|) % 4 == 0
    requires forall i :: 0 <= i < |pad| ==> pad[i] == '='
    ensures Run(pad, st, 0) == Ok(st.out)
  {
    if |pad| == 2 {
      assert pad[1..][0] == '=';
    }
  }

  /** Every well-formed ASCII text is accepted by the validating decoder. */
  lemma StrictDecodeAcceptsWellFormed(s: string)
    requires AllAscii(s) && WellFormed(s)
    ensures StrictDecode(s).Ok?
  {
    var body := RStrip(s, '=');
    var pad := s[|body|..];
    assert s == body + pad;
    assert Alphabetic(body);
    RunFeed(body, pad, Start, 0);
    var st := Feed(body, Start);
    forall i | 0 <= i < |pad| ensures pad[i] == '=' {
      assert pad[i] == s[|body| + i];
    }
    ModFour(|body|, |pad|);
    RunPadding(pad, st);
    assert StrictDecode(s) == Run(s, Start, 0);
  }

  lemma ModFour(a: nat, b: nat)
    requires (a + b) % 4 == 0
    ensures (a % 4 + b) % 4 == 0
  {
  }

  /** Stripping the `=` of a text whose `=` are exactly its last `p` characters
      leaves the rest. */
  lemma RStripPadding(s: string, p: nat)
    requires PaddedBy(s, p)
    ensures |RStrip(s, '=')| == |s| - p
  {
    var body := RStrip(s, '=');
    if |s| - p > 0 {
      assert s[|s| - p - 1] != '=';
    }
    if |body| > 0 {
      assert body[|body| - 1] == s[|body| - 1];
    }
  }

  /** Whole quanta of alphabet characters and `=`, whose `=` are at most the
      last two characters, are well-formed. */
  lemma PaddedWellFormed(s: string, p: nat)
    requires |s| % 4 == 0 && p <= 2 && PaddedBy(s, p)
    requires forall i :: 0 <= i < |s| ==> InAlphabet(s[i]) || s[i] == '='
    ensures WellFormed(s)
  {
    RStripPadding(s, p);
    var body := RStrip(s, '=');
    forall i | 0 <= i < |body| ensures InAlphabet(body[i]) {
      assert body[i] == s[i];
    }
  }

  lemma QuadLength(n: nat)
    ensures (4 * n) % 4 == 0
  {
  }

  /** `to_base64` output is well-formed: its `=` are exactly the padding. */
  lemma EncodeWellFormed(b: seq<byte>)
    ensures WellFormed(Encode(b))
  {
    EncodePadding(b);
    QuadLength((|b| + 2) / 3);
    PaddedWellFormed(Encode(b), (3 - |b| % 3) % 3);
  }

  /** The validating decoder accepts everything `to_base64` produces and gives
      back the original bytes. */
  lemma StrictDecodeEncode(b: seq<byte>)
    ensures StrictDecode(Encode(b)) == Ok(b)
  {
    EncodeAscii(b);
    EncodeWellFormed(b);
    StrictDecodeAcceptsWellFormed(Encode(b));
    DecodeEncode(b);
  }

  /** A text with a character outside the alphabet before its padding is refused. */
  lemma StrictDecodeRejectsForeign(s: string, i: nat)
    requires AllAscii(s)
    requires i < |RStrip(s, '=')| && !InAlphabet(s[i])
    ensures StrictDecode(s) == Err(NonAlphabetCharacter)
  {
    assert RStrip(s, '=')[i] == s[i];
  }

  /** The input that shows the lenient decoder's gap: `"!!!"` is not base64,
      yet `from_base64` as written returns an empty ciphertext for it, where
      the validating decoder reports an error. */
  lemma LenientDecodeAcceptsGarbage()
    ensures Decode("!!!") == Ok([])
    ensures StrictDecode("!!!") == Err(NonAlphabetCharacter)
  {
    DecodeForeignIsEmpty("!!!");
    StrictDecodeRejectsForeign("!!!", 0);
  }
}
