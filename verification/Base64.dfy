/** Base 64 encoding (`util::base64::encode`), against section 4 of RFC 4648. */
module Base64 {
  import opened Prelude

  const UPPER := "ABCDEFGHIJKLMNOPQRSTUVWXYZ"
  const LOWER := "abcdefghijklmnopqrstuvwxyz"
  const DIGITS := "0123456789"
  const ALPHABET := UPPER + LOWER + DIGITS + "+/"

  type sextet = x: bv8 | x < 64

  function Symbol(x: sextet): char
  {
    ALPHABET[x as int]
  }

  // ----- The standard: 24-bit groups of four 6-bit values --------------------------------------

  function Group(a: bv8, b: bv8, c: bv8): bv24
  {
    (a as bv24 << 16) | (b as bv24 << 8) | c as bv24
  }

  /** The four 6-bit values of a group, from the left. */
  function Sextets(g: bv24): (sextet, sextet, sextet, sextet)
  {
    ((g >> 18) as bv8, ((g >> 12) & 63) as bv8, ((g >> 6) & 63) as bv8, (g & 63) as bv8)
  }

  function Symbols(q: (sextet, sextet, sextet, sextet)): (r: string)
    ensures |r| == 4
  {
    [Symbol(q.0), Symbol(q.1), Symbol(q.2), Symbol(q.3)]
  }

  function Quad(a: bv8, b: bv8, c: bv8): (r: string)
    ensures |r| == 4
  {
    Symbols(Sextets(Group(a, b, c)))
  }

  /** Full groups, then a last one filled with zero bits and padded with '='. */
  function Encoded(input: seq<bv8>): (r: string)
    ensures |r| == (|input| + 2) / 3 * 4
  {
    if |input| == 0 then ""
    else if |input| == 1 then Quad(input[0], 0, 0)[..2] + "=="
    else if |input| == 2 then Quad(input[0], input[1], 0)[..3] + "="
    else Quad(input[0], input[1], input[2]) + Encoded(input[3..])
  }

  // ----- The decoder ---------------------------------------------------------------------------

  /** The place of a symbol in the alphabet, or 64. */
  function Place(c: char): (i: nat)
    ensures i <= 64
  {
    if 'A' <= c <= 'Z' then c as int - 'A' as int
    else if 'a' <= c <= 'z' then c as int - 'a' as int + 26
    else if '0' <= c <= '9' then c as int - '0' as int + 52
    else if c == '+' then 62
    else if c == '/' then 63
    else 64
  }

  /** The 6-bit value of a symbol. */
  function Value(c: char): Option<sextet>
  {
    if Place(c) < 64 then Some(Place(c) as bv8) else None
  }

  /** The three bytes of four 6-bit values. */
  function Bytes(q: (sextet, sextet, sextet, sextet)): (bv8, bv8, bv8)
  {
    ((q.0 << 2) | (q.1 >> 4), (q.1 << 4) | (q.2 >> 2), (q.2 << 6) | q.3)
  }

  /** Bits that padding covers must be zero. */
  function Decoded(s: string): Option<seq<bv8>>
  {
    if s == "" then Some([])
    else if |s| < 4 || Value(s[0]).None? || Value(s[1]).None? then None
    else if s[2..] == "==" then
      if Value(s[1]).value & 15 != 0 then None
      else Some([Bytes((Value(s[0]).value, Value(s[1]).value, 0, 0)).0])
    else if Value(s[2]).None? then None
    else if s[3..] == "=" then
      if Value(s[2]).value & 3 != 0 then None
      else
        var b := Bytes((Value(s[0]).value, Value(s[1]).value, Value(s[2]).value, 0));
        Some([b.0, b.1])
    else if Value(s[3]).None? then None
    else
      var b := Bytes((Value(s[0]).value, Value(s[1]).value, Value(s[2]).value, Value(s[3]).value));
      match Decoded(s[4..])
      case None => None
      case Some(rest) => Some([b.0, b.1, b.2] + rest)
  }

  /** The characters of s from i on are consecutive, starting at c + i. */
  predicate Consecutive(s: string, c: char, i: nat)
    ensures Consecutive(s, c, i) ==> forall j :: i <= j < |s| ==> s[j] as int == c as int + j
    decreases |s| - i
  {
    i < |s| ==> s[i] as int == c as int + i && Consecutive(s, c, i + 1)
  }

  lemma UpperConsecutive()
    ensures Consecutive(UPPER, 'A', 0) && |UPPER| == 26
  {
    var s := "ABCDEFGHIJKLMNOPQRSTUVWXYZ";
    assert Consecutive(s, 'A', 21);
    assert Consecutive(s, 'A', 16);
    assert Consecutive(s, 'A', 11);
    assert Consecutive(s, 'A', 6);
    assert Consecutive(s, 'A', 1);
  }

  lemma LowerConsecutive()
    ensures Consecutive(LOWER, 'a', 0) && |LOWER| == 26
  {
    var s := "abcdefghijklmnopqrstuvwxyz";
    assert Consecutive(s, 'a', 21);
    assert Consecutive(s, 'a', 16);
    assert Consecutive(s, 'a', 11);
    assert Consecutive(s, 'a', 6);
    assert Consecutive(s, 'a', 1);
  }

  lemma DigitsConsecutive()
    ensures Consecutive(DIGITS, '0', 0) && |DIGITS| == 10
  {
    var s := "0123456789";
    assert Consecutive(s, '0', 5);
  }

  /** What the table holds at i. */
  lemma Table(i: nat)
    requires i < 64
    ensures |ALPHABET| == 64 && Place(ALPHABET[i]) == i
    ensures ALPHABET[i] as int == if i < 26 then 65 + i else if i < 52 then 71 + i else if i < 62 then i - 4 else if i == 62 then 43 else 47
  {
    UpperConsecutive();
    LowerConsecutive();
    DigitsConsecutive();
    var upper, lower, digits := UPPER, LOWER, DIGITS;
    assert ALPHABET == upper + lower + digits + "+/";
  }

  lemma SymbolHasValue(x: sextet)
    ensures Value(Symbol(x)) == Some(x)
  {
    Table(x as int);
  }

  lemma BytesOfSextets(a: bv8, b: bv8, c: bv8)
    ensures Bytes(Sextets(Group(a, b, c))) == (a, b, c)
  {
  }

  /** The values of the four symbols of a group, and the bytes that they give back. */
  lemma QuadValues(a: bv8, b: bv8, c: bv8)
    ensures var q, s := Sextets(Group(a, b, c)), Quad(a, b, c);
            && Value(s[0]) == Some(q.0) && Value(s[1]) == Some(q.1) && Value(s[2]) == Some(q.2) && Value(s[3]) == Some(q.3)
            && Bytes(q) == (a, b, c)
    ensures Quad(a, b, c)[2] != '=' && Quad(a, b, c)[3] != '='
  {
    var q := Sextets(Group(a, b, c));
    SymbolHasValue(q.0);
    SymbolHasValue(q.1);
    SymbolHasValue(q.2);
    SymbolHasValue(q.3);
    BytesOfSextets(a, b, c);
  }

  lemma DecodeOne(input: seq<bv8>)
    requires |input| == 1
    ensures Decoded(Encoded(input)) == Some(input)
  {
    var a := input[0];
    QuadValues(a, 0, 0);
    PaddedSextets(a, 0);
    var s := Quad(a, 0, 0)[..2] + "==";
    assert s[2..] == "==";
    assert Decoded(s) == Some([a]);
    assert Encoded(input) == s && input == [a];
  }

  lemma DecodeTwo(input: seq<bv8>)
    requires |input| == 2
    ensures Decoded(Encoded(input)) == Some(input)
  {
    var a, b := input[0], input[1];
    QuadValues(a, b, 0);
    PaddedSextets(a, b);
    var s := Quad(a, b, 0)[..3] + "=";
    assert s[2..][0] == Quad(a, b, 0)[2];
    assert s[3..] == "=";
    assert Decoded(s) == Some([a, b]);
    assert Encoded(input) == s && input == [a, b];
  }

  lemma DecodeGroup(a: bv8, b: bv8, c: bv8, rest: string, bytes: seq<bv8>)
    requires Decoded(rest) == Some(bytes)
    ensures Decoded(Quad(a, b, c) + rest) == Some([a, b, c] + bytes)
  {
    QuadValues(a, b, c);
    var s := Quad(a, b, c) + rest;
    assert s[2..][0] == Quad(a, b, c)[2] && s[3..][0] == Quad(a, b, c)[3] && s[4..] == rest;
  }

  lemma EncodedGroup(a: bv8, b: bv8, c: bv8, input: seq<bv8>)
    ensures Encoded([a, b, c] + input) == Quad(a, b, c) + Encoded(input)
  {
    assert ([a, b, c] + input)[3..] == input;
  }

  /** Decoding what was encoded gives it back. */
  lemma {:induction false} DecodeEncoded(input: seq<bv8>)
    ensures Decoded(Encoded(input)) == Some(input)
  {
    if |input| == 1 {
      DecodeOne(input);
    } else if |input| == 2 {
      DecodeTwo(input);
    } else if |input| > 2 {
      var a, b, c, rest := input[0], input[1], input[2], input[3..];
      DecodeEncoded(rest);
      DecodeGroup(a, b, c, Encoded(rest), rest);
      EncodedGroup(a, b, c, rest);
      assert input == [a, b, c] + rest;
    }
  }

  /** The 6-bit values that padding stands for are zero. */
  lemma PaddedSextets(a: bv8, b: bv8)
    ensures Sextets(Group(a, b, 0)).3 == 0 && Sextets(Group(a, b, 0)).2 & 3 == 0
    ensures b == 0 ==> Sextets(Group(a, b, 0)).2 == 0 && Sextets(Group(a, b, 0)).1 & 15 == 0
  {
  }

  // ----- Only encodings are decoded ------------------------------------------------------------

  lemma AlphabetAt(c: char)
    requires Place(c) < 64
    ensures |ALPHABET| == 64 && ALPHABET[Place(c)] == c
  {
    Table(Place(c));
  }

  lemma ThereAndBack(i: nat)
    requires i < 64
    ensures (i as bv8) as int == i
  {
  }

  lemma ValueHasSymbol(c: char)
    requires Value(c).Some?
    ensures Symbol(Value(c).value) == c
  {
    var i := Place(c);
    AlphabetAt(c);
    ThereAndBack(i);
    assert ALPHABET[(i as bv8) as int] == c;
  }

  lemma SextetsOfBytes(q: (sextet, sextet, sextet, sextet))
    ensures var b := Bytes(q); Sextets(Group(b.0, b.1, b.2)) == q
    ensures q.2 == 0 && q.3 == 0 && q.1 & 15 == 0 ==> Sextets(Group(Bytes(q).0, 0, 0)) == q
    ensures q.3 == 0 && q.2 & 3 == 0 ==> Sextets(Group(Bytes(q).0, Bytes(q).1, 0)) == q
  {
  }

  /** The two symbols of one byte. */
  lemma OneByte(c0: char, c1: char)
    requires Value(c0).Some? && Value(c1).Some? && Value(c1).value & 15 == 0
    ensures Quad(Bytes((Value(c0).value, Value(c1).value, 0, 0)).0, 0, 0)[..2] == [c0, c1]
  {
    SextetsOfBytes((Value(c0).value, Value(c1).value, 0, 0));
    ValueHasSymbol(c0);
    ValueHasSymbol(c1);
  }

  /** The three symbols of two bytes. */
  lemma TwoBytes(c0: char, c1: char, c2: char)
    requires Value(c0).Some? && Value(c1).Some? && Value(c2).Some? && Value(c2).value & 3 == 0
    ensures var b := Bytes((Value(c0).value, Value(c1).value, Value(c2).value, 0));
            Quad(b.0, b.1, 0)[..3] == [c0, c1, c2]
  {
    SextetsOfBytes((Value(c0).value, Value(c1).value, Value(c2).value, 0));
    ValueHasSymbol(c0);
    ValueHasSymbol(c1);
    ValueHasSymbol(c2);
  }

  lemma EncodedShort(a: bv8, b: bv8, one: string, two: string)
    ensures Quad(a, 0, 0)[..2] == one ==> Encoded([a]) == one + "=="
    ensures Quad(a, b, 0)[..3] == two ==> Encoded([a, b]) == two + "="
  {
  }

  lemma DecodedOne(s: string)
    requires Decoded(s).Some? && |s| >= 4 && s[2..] == "=="
    ensures Value(s[0]).Some? && Value(s[1]).Some? && Value(s[1]).value & 15 == 0
    ensures Decoded(s).value == [Bytes((Value(s[0]).value, Value(s[1]).value, 0, 0)).0]
  {
  }

  lemma DecodedTwo(s: string)
    requires Decoded(s).Some? && |s| >= 4 && s[2..] != "==" && s[3..] == "="
    ensures Value(s[0]).Some? && Value(s[1]).Some? && Value(s[2]).Some? && Value(s[2]).value & 3 == 0
    ensures var b := Bytes((Value(s[0]).value, Value(s[1]).value, Value(s[2]).value, 0)); Decoded(s).value == [b.0, b.1]
  {
  }

  lemma OneOf(s: string) returns (a: bv8)
    requires Decoded(s).Some? && |s| >= 4 && s[2..] == "=="
    ensures Decoded(s).value == [a] && Quad(a, 0, 0)[..2] == [s[0], s[1]]
  {
    DecodedOne(s);
    OneByte(s[0], s[1]);
    a := Bytes((Value(s[0]).value, Value(s[1]).value, 0, 0)).0;
  }

  lemma TwoOf(s: string) returns (a: bv8, b: bv8)
    requires Decoded(s).Some? && |s| >= 4 && s[2..] != "==" && s[3..] == "="
    ensures Decoded(s).value == [a, b] && Quad(a, b, 0)[..3] == [s[0], s[1], s[2]]
  {
    DecodedTwo(s);
    TwoBytes(s[0], s[1], s[2]);
    var bytes := Bytes((Value(s[0]).value, Value(s[1]).value, Value(s[2]).value, 0));
    a, b := bytes.0, bytes.1;
  }

  lemma Padded(s: string)
    requires |s| >= 4
    ensures s[2..] == "==" ==> s == [s[0], s[1]] + "=="
    ensures s[3..] == "=" ==> s == [s[0], s[1], s[2]] + "="
  {
    assert s == [s[0], s[1]] + s[2..] == [s[0], s[1], s[2]] + s[3..];
  }

  lemma EncodeOne(s: string) returns (a: bv8)
    requires Decoded(s).Some? && |s| >= 4 && s[2..] == "=="
    ensures Decoded(s).value == [a] && Encoded([a]) == [s[0], s[1]] + "=="
  {
    a := OneOf(s);
    EncodedShort(a, 0, [s[0], s[1]], "");
  }

  lemma EncodeTwo(s: string) returns (a: bv8, b: bv8)
    requires Decoded(s).Some? && |s| >= 4 && s[2..] != "==" && s[3..] == "="
    ensures Decoded(s).value == [a, b] && Encoded([a, b]) == [s[0], s[1], s[2]] + "="
  {
    a, b := TwoOf(s);
    EncodedShort(a, b, "", [s[0], s[1], s[2]]);
  }

  lemma EncodeShort(s: string)
    requires Decoded(s).Some? && |s| >= 4 && (s[2..] == "==" || s[3..] == "=")
    ensures Encoded(Decoded(s).value) == s
  {
    Padded(s);
    if s[2..] == "==" {
      var a := EncodeOne(s);
    } else {
      var a, b := EncodeTwo(s);
    }
  }

  lemma EncodeGroup(s: string)
    requires |s| >= 4 && forall i :: 0 <= i < 4 ==> Value(s[i]).Some?
    ensures var b := Bytes((Value(s[0]).value, Value(s[1]).value, Value(s[2]).value, Value(s[3]).value));
            Quad(b.0, b.1, b.2) == s[..4]
  {
    SextetsOfBytes((Value(s[0]).value, Value(s[1]).value, Value(s[2]).value, Value(s[3]).value));
    ValueHasSymbol(s[0]);
    ValueHasSymbol(s[1]);
    ValueHasSymbol(s[2]);
    ValueHasSymbol(s[3]);
  }

  /** What is decoded is the encoding of what it decodes to: there is no other way to write those bytes. */
  lemma {:induction false} EncodeDecoded(s: string)
    requires Decoded(s).Some?
    ensures Encoded(Decoded(s).value) == s
    decreases |s|
  {
    if s == "" {
    } else if s[2..] == "==" || s[3..] == "=" {
      EncodeShort(s);
    } else {
      var rest := s[4..];
      var b := Bytes((Value(s[0]).value, Value(s[1]).value, Value(s[2]).value, Value(s[3]).value));
      EncodeDecoded(rest);
      EncodeGroup(s);
      EncodedGroup(b.0, b.1, b.2, Decoded(rest).value);
      assert s == s[..4] + rest;
    }
  }

  /** The standard's worked examples, section 10 of RFC 4648. */
  lemma WorkedExamples()
    ensures Encoded([0x66]) == "Zg==" && Encoded([0x66, 0x6f]) == "Zm8="
  {
    assert Decoded("Zg==") == Some([0x66 as bv8]) by {
      assert "Zg=="[2..] == "==";
    }
    assert Decoded("Zm8=") == Some([0x66 as bv8, 0x6f]) by {
      assert "Zm8="[2..] == "8=" && "Zm8="[3..] == "=";
    }
    EncodeDecoded("Zg==");
    EncodeDecoded("Zm8=");
  }

  // ----- The loop ------------------------------------------------------------------------------

  /** The bit arithmetic of the loop is the cutting of a group into 6-bit values. */
  lemma ShiftsCutGroups(a: bv8, b: bv8, c: bv8)
    ensures var q := Sextets(Group(a, b, c));
            && (a & 0xfc) >> 2 == q.0
            && ((a & 0x03) << 4) + ((b & 0xf0) >> 4) == q.1
            && ((b & 0x0f) << 2) + ((c & 0xc0) >> 6) == q.2
            && c & 0x3f == q.3
  {
  }

  /** Three scratch bytes to four scratch values. */
  method Cut(three: array<bv8>, four: array<bv8>)
    requires three.Length == 3 && four.Length == 4 && three != four
    modifies four
    ensures (four[0], four[1], four[2], four[3]) == Sextets(Group(three[0], three[1], three[2]))
  {
    ShiftsCutGroups(three[0], three[1], three[2]);
    four[0] := (three[0] & 0xfc) >> 2;
    four[1] := ((three[0] & 0x03) << 4) + ((three[1] & 0xf0) >> 4);
    four[2] := ((three[1] & 0x0f) << 2) + ((three[2] & 0xc0) >> 6);
    four[3] := three[2] & 0x3f;
  }

  /** Writes the symbols of the first n scratch values. */
  method Put(four: array<bv8>, ghost q: (sextet, sextet, sextet, sextet), n: nat, output: array<char>, at: nat)
    requires four.Length == 4 && (four[0], four[1], four[2], four[3]) == q
    requires n <= 4 && at + n <= output.Length
    modifies output
    ensures output[at..at + n] == Symbols(q)[..n]
    ensures forall k :: 0 <= k < output.Length && !(at <= k < at + n) ==> output[k] == old(output[k])
  {
    var values := four[..];
    assert values == [q.0, q.1, q.2, q.3];
    var j := 0;
    while j < n
      invariant j <= n
      invariant forall i :: 0 <= i < j ==> output[at + i] == Symbols(q)[i]
      invariant forall k :: 0 <= k < output.Length && !(at <= k < at + n) ==> output[k] == old(output[k])
    {
      assert values[j] < 64;
      output[at + j] := Symbol(values[j]);
      j := j + 1;
    }
  }

  /** The rest of the input, one or two bytes, in the scratch array: padded and written. */
  method PutTail(three: array<bv8>, four: array<bv8>, i0: nat, output: array<char>, at: nat)
    requires three.Length == 3 && four.Length == 4 && three != four && three as object != output && 0 < i0 < 3 && at + 4 <= output.Length
    modifies three, four, output
    ensures output[at..at + 4] == Encoded(old(three[..i0]))
    ensures forall k :: 0 <= k < output.Length && !(at <= k < at + 4) ==> output[k] == old(output[k])
  {
    ghost var rest := three[..i0];
    var i, j, out := i0, i0, at;
    while j < 3
      invariant i <= j <= 3 && three[..i] == rest
      invariant forall k :: i <= k < j ==> three[k] == 0
      modifies three
    {
      three[j] := 0;
      j := j + 1;
    }
    Cut(three, four);
    Put(four, Sextets(Group(three[0], three[1], three[2])), i + 1, output, out);
    out := out + i + 1;
    ghost var symbols := output[at..out];
    Pad(i, output, at, out);
    assert rest == if i0 == 1 then [three[0]] else [three[0], three[1]];
    assert output[at..at + 4] == symbols + output[at + i0 + 1..at + 4];
  }

  /** The padding after the symbols of i bytes. */
  method Pad(i0: nat, output: array<char>, at: nat, out0: nat)
    requires 0 < i0 < 3 && out0 == at + i0 + 1 && at + 4 <= output.Length
    modifies output
    ensures forall k :: out0 <= k < at + 4 ==> output[k] == '='
    ensures forall k :: 0 <= k < output.Length && !(out0 <= k < at + 4) ==> output[k] == old(output[k])
  {
    var i, out := i0, out0;
    while i < 3
      invariant i0 <= i <= 3 && out == at + i + 1
      invariant forall k :: out0 <= k < out ==> output[k] == '='
      invariant forall k :: 0 <= k < output.Length && !(out0 <= k < at + 4) ==> output[k] == old(output[k])
    {
      output[out] := '=';
      out, i := out + 1, i + 1;
    }
  }

  /** A full scratch array: its quad is written. */
  method PutGroup(three: array<bv8>, four: array<bv8>, output: array<char>, at: nat)
    requires three.Length == 3 && four.Length == 4 && three != four && at + 4 <= output.Length
    modifies four, output
    ensures output[..at + 4] == old(output[..at]) + Quad(three[0], three[1], three[2])
    ensures output[at + 4..] == old(output[at + 4..])
  {
    Cut(three, four);
    Put(four, Sextets(Group(three[0], three[1], three[2])), 4, output, at);
    assert output[..at + 4] == output[..at] + output[at..at + 4];
    assert output[..at] == old(output[..at]);
  }

  /**
   The encoder; the input is only read, and None is a null pointer. It writes exactly
   4 * ceil(n / 3) symbols, those of the standard, and nothing after them; or nothing at all, when a
   pointer is null or the output is too small.
   */
  method Encode(input: Option<seq<bv8>>, output: array?<char>, outputSize: nat) returns (written: nat)
    requires output != null ==> outputSize <= output.Length
    modifies output
    ensures input == None || output == null || outputSize < (|input.value| + 2) / 3 * 4 ==>
              written == 0 && (output != null ==> output[..] == old(output[..]))
    ensures input.Some? && output != null && outputSize >= (|input.value| + 2) / 3 * 4 ==>
              && written == (|input.value| + 2) / 3 * 4
              && output[..written] == Encoded(input.value)
              && output[written..] == old(output[written..])
  {
    if input.None? || output == null {
      return 0;
    }
    var inputSize := |input.value|;
    var inflation := inputSize / 3 * 4;
    if inputSize % 3 != 0 {
      inflation := inflation + 4;
    }
    if outputSize < inflation {
      return 0;
    }
    written := EncodeInto(input.value, output);
  }

  /** One byte into the scratch array, which is written and emptied when it is full. */
  method TakeByte(b: bv8, three: array<bv8>, four: array<bv8>, i: nat, output: array<char>, at: nat) returns (i': nat, at': nat)
    requires three.Length == 3 && four.Length == 4 && three != four && i < 3 && (i == 2 ==> at + 4 <= output.Length)
    requires at <= output.Length && three as object != output
    modifies three, four, output
    ensures if i == 2
            then i' == 0 && at' == at + 4 && output[..at'] == old(output[..at]) + Quad(old(three[0]), old(three[1]), b)
            else i' == i + 1 && at' == at && output[..at'] == old(output[..at]) && three[..i'] == old(three[..i]) + [b]
    ensures output[at'..] == old(output[..])[at'..]
  {
    three[i] := b;
    assert output[..] == old(output[..]);
    assert output[..at] == output[..][..at] && output[at..] == output[..][at..];
    i', at' := i + 1, at;
    if i' == 3 {
      PutGroup(three, four, output, at);
      i', at' := 0, at + 4;
      assert old(output[..])[at'..] == old(output[at + 4..]);
    }
  }

  /** The loop over the input: full groups are written, and i bytes are left in the scratch array. */
  method EncodeGroups(input: seq<bv8>, three: array<bv8>, four: array<bv8>, output: array<char>) returns (i: nat, out: nat)
    requires three.Length == 3 && four.Length == 4 && three != four && three as object != output
    requires |Encoded(input)| <= output.Length
    modifies three, four, output
    ensures i < 3 && out <= |Encoded(input)| && output[..out] + Encoded(three[..i]) == Encoded(input)
    ensures output[out..] == old(output[..])[out..]
  {
    var inlen, pos: nat := |input|, 0;
    i, out := 0, 0;
    ghost var rest := input;
    while inlen != 0
      invariant 0 <= inlen && inlen + pos == |input| && i < 3 && i <= pos && out <= output.Length
      invariant rest == input[pos - i..] && Progress(rest, three[..i], output[..out], Encoded(input))
      invariant output[out..] == old(output[..])[out..]
      decreases inlen
    {
      inlen := inlen - 1;
      NextByte(rest, three[..i], output[..out], Encoded(input));
      assert rest[i] == input[pos];
      if i == 2 {
        rest := rest[3..];
      }
      i, out := TakeByte(input[pos], three, four, i, output, out);
      pos := pos + 1;
      assert i == 0 ==> three[..i] == [];
    }
    assert three[..i] == rest;
  }

  /** Four symbols more. */
  lemma TailOf(before: string, after: string, at: nat)
    requires at + 4 <= |before| == |after|
    requires forall k :: 0 <= k < |after| && !(at <= k < at + 4) ==> after[k] == before[k]
    ensures after[..at + 4] == before[..at] + after[at..at + 4]
    ensures after[at + 4..] == before[at + 4..]
  {
  }

  method EncodeInto(input: seq<bv8>, output: array<char>) returns (out: nat)
    requires |Encoded(input)| <= output.Length
    modifies output
    ensures out == |Encoded(input)| && output[..out] == Encoded(input) && output[out..] == old(output[out..])
  {
    var three := new bv8[3](_ => 0);
    var four := new bv8[4](_ => 0);
    var i;
    i, out := EncodeGroups(input, three, four, output);
    if i != 0 {
      ghost var before := output[..];
      PutTail(three, four, i, output, out);
      TailOf(before, output[..], out);
      out := out + 4;
    } else {
      assert three[..i] == [] && output[..out] + "" == output[..out];
    }
  }

  /** The bytes not yet written begin with the scratch bytes; their symbols complete the text. */
  ghost predicate Progress(rest: seq<bv8>, scratch: seq<bv8>, done: string, text: string)
  {
    scratch <= rest && done + Encoded(rest) == text
  }

  lemma NextByte(rest: seq<bv8>, scratch: seq<bv8>, done: string, text: string)
    requires |scratch| < |rest| && |scratch| < 3 && Progress(rest, scratch, done, text)
    ensures |done| <= |text|
    ensures var b := rest[|scratch|];
            if |scratch| == 2 then rest[3..] == rest[|scratch| + 1..] && Progress(rest[3..], [], done + Quad(scratch[0], scratch[1], b), text) && |done| + 4 <= |text|
            else Progress(rest, scratch + [b], done, text)
  {
  }
}
