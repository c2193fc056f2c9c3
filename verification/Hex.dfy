/** The hexadecimal form of a ciphertext in the content of an event. */
module Hex {
  import opened Options

  type Byte = b: nat | b < 256

  function Digit(n: nat): (c: char)
    requires n < 16
    ensures IsDigit(c) && DigitValue(c) == n && !('A' <= c <= 'F')
  {
    if n < 10 then '0' + n as char else 'a' + (n - 10) as char
  }

  predicate IsDigit(c: char) { '0' <= c <= '9' || 'a' <= c <= 'f' || 'A' <= c <= 'F' }

  function DigitValue(c: char): (n: nat)
    requires IsDigit(c)
    ensures n < 16
  {
    if c <= '9' then (c - '0') as nat
    else if c <= 'F' then (c - 'A') as nat + 10
    else (c - 'a') as nat + 10
  }

  predicate IsSpace(c: char) { c == ' ' || '\t' <= c <= '\r' }

  /** Two lower-case digits for each byte. */
  function Pair(b: Byte): string { [Digit(b / 16), Digit(b % 16)] }

  function Encode(bytes: seq<Byte>): string {
    if bytes == [] then "" else Pair(bytes[0]) + Encode(bytes[1..])
  }

  // ---------------------------------------------------------------- reading a number, as std::stoul does

  function SkipSpaces(s: string): string {
    if s != [] && IsSpace(s[0]) then SkipSpaces(s[1..]) else s
  }

  /** The digits in front; whatever follows them is ignored. */
  function Leading(s: string): string {
    if s != [] && IsDigit(s[0]) then [s[0]] + Leading(s[1..]) else []
  }

  function ValueOf(digits: string): nat
    requires forall i :: 0 <= i < |digits| ==> IsDigit(digits[i])
  {
    if digits == [] then 0 else ValueOf(digits[..|digits| - 1]) * 16 + DigitValue(digits[|digits| - 1])
  }

  lemma {:induction false} LeadingAreDigits(s: string)
    ensures forall i :: 0 <= i < |Leading(s)| ==> IsDigit(Leading(s)[i])
  {
    if s != [] && IsDigit(s[0]) {
      LeadingAreDigits(s[1..]);
    }
  }

  /**
   * Base 16, on at most two characters, where a 0x prefix cannot be followed by a digit; the value is
   * then cut to eight bits.  White space, a sign and trailing characters are tolerated; a minus sign
   * negates modulo 2^64 and so modulo 256.  Without any digit it throws.
   */
  function Read(chunk: string): Option<Byte>
    requires |chunk| <= 2
  {
    var s := SkipSpaces(chunk);
    var signed := s != [] && (s[0] == '+' || s[0] == '-');
    var digits := Leading(if signed then s[1..] else s);
    LeadingAreDigits(if signed then s[1..] else s);
    if digits == [] then None
    else if signed && s[0] == '-' then Some((256 - ValueOf(digits) % 256) % 256)
    else Some(ValueOf(digits) % 256)
  }

  function ChunkSize(s: string): nat { if |s| < 2 then |s| else 2 }

  function Decode(s: string): Option<seq<Byte>> {
    if s == "" then Some([])
    else
      var n := ChunkSize(s);
      var b := Read(s[..n]);
      if b.None? then None else Prepend([b.value], Decode(s[n..]))
  }

  function Prepend(bytes: seq<Byte>, rest: Option<seq<Byte>>): Option<seq<Byte>> {
    if rest.Some? then Some(bytes + rest.value) else None
  }

  // ---------------------------------------------------------------- the round trip

  lemma {:induction false} LeadingOfTwo(c: char, d: char)
    requires IsDigit(c)
    ensures Leading([c, d]) == if IsDigit(d) then [c, d] else [c]
  {
    assert [c, d][1..] == [d] && [d][1..] == [];
    assert Leading([d]) == if IsDigit(d) then [d] else [];
  }

  lemma {:induction false} ReadOfTwo(c: char, d: char)
    requires IsDigit(c)
    ensures Read([c, d]) ==
            Some(if IsDigit(d) then DigitValue(c) * 16 + DigitValue(d) else DigitValue(c))
  {
    LeadingOfTwo(c, d);
    ValueOfDigits(c, d);
    assert SkipSpaces([c, d]) == [c, d];
  }

  lemma {:induction false} ValueOfDigits(c: char, d: char)
    requires IsDigit(c)
    ensures ValueOf([c]) == DigitValue(c)
    ensures IsDigit(d) ==> ValueOf([c, d]) == DigitValue(c) * 16 + DigitValue(d)
  {
    assert [c][..0] == [] && [c, d][..1] == [c];
  }

  lemma {:induction false} ReadUndoesPair(b: Byte)
    ensures Read(Pair(b)) == Some(b)
  {
    ReadOfTwo(Digit(b / 16), Digit(b % 16));
  }

  lemma {:induction false} DecodeNext(c: char, d: char, rest: string)
    ensures Decode([c, d] + rest) ==
            if Read([c, d]).Some? then Prepend([Read([c, d]).value], Decode(rest)) else None
  {
    var s := [c, d] + rest;
    assert s[..2] == [c, d] && s[2..] == rest;
  }

  /** Decoding gives back every ciphertext. */
  lemma {:induction false} DecodeUndoesEncode(bytes: seq<Byte>)
    ensures Decode(Encode(bytes)) == Some(bytes)
  {
    if bytes != [] {
      var b := bytes[0];
      DecodeUndoesEncode(bytes[1..]);
      ReadUndoesPair(b);
      DecodeNext(Digit(b / 16), Digit(b % 16), Encode(bytes[1..]));
      assert [b] + bytes[1..] == bytes;
    }
  }

  // ---------------------------------------------------------------- the digits, written out

  lemma {:induction false} OnlyDigits(c: char)
    ensures IsDigit(c) <==> c in "0123456789abcdefABCDEF"
  {
  }

  lemma {:induction false} DigitsWrittenOut(n: nat)
    requires n < 16
    ensures Digit(n) == "0123456789abcdef"[n]
    ensures IsDigit("0123456789ABCDEF"[n]) && DigitValue("0123456789ABCDEF"[n]) == n
    ensures IsDigit("0123456789abcdef"[n]) && DigitValue("0123456789abcdef"[n]) == n
  {
  }

  /** Every byte is two lower-case digits, the higher one first. */
  lemma {:induction false} EncodedWrittenOut(bytes: seq<Byte>, i: nat)
    requires i < |bytes|
    ensures |Encode(bytes)| == 2 * |bytes|
    ensures Encode(bytes)[2 * i] == "0123456789abcdef"[bytes[i] / 16]
    ensures Encode(bytes)[2 * i + 1] == "0123456789abcdef"[bytes[i] % 16]
  {
    EncodeIsCanonical(bytes);
    DigitsWrittenOut(bytes[i] / 16);
    DigitsWrittenOut(bytes[i] % 16);
    if i > 0 {
      EncodedWrittenOut(bytes[1..], i - 1);
    }
  }

  /** A single digit; one behind white space or a plus sign; and one behind a minus sign, which wraps. */
  lemma {:induction false} ReadOfOne(d: char, front: char)
    requires IsDigit(d)
    ensures Read([d]) == Some(DigitValue(d))
    ensures IsSpace(front) || front == '+' ==> Read([front, d]) == Some(DigitValue(d))
    ensures front == '-' ==> Read([front, d]) == Some((256 - DigitValue(d)) % 256)
  {
    ValueOfDigits(d, d);
    assert [front, d][1..] == [d] && [d][1..] == [];
    assert Leading([d]) == [d] && SkipSpaces([d]) == [d];
    assert !IsSpace(front) ==> SkipSpaces([front, d]) == [front, d];
    assert IsSpace(front) ==> SkipSpaces([front, d]) == [d];
  }

  // ---------------------------------------------------------------- which texts the decoder inverts

  /** What the sender writes: an even number of lower-case digits. */
  predicate Canonical(s: string) {
    |s| % 2 == 0 && forall i :: 0 <= i < |s| ==> IsDigit(s[i]) && !('A' <= s[i] <= 'F')
  }

  lemma {:induction false} EncodeIsCanonical(bytes: seq<Byte>)
    ensures Canonical(Encode(bytes)) && |Encode(bytes)| == 2 * |bytes|
  {
    if bytes != [] {
      EncodeIsCanonical(bytes[1..]);
    }
  }

  lemma {:induction false} PairUndoesRead(c: char, d: char)
    requires IsDigit(c) && IsDigit(d) && !('A' <= c <= 'F') && !('A' <= d <= 'F')
    ensures Read([c, d]).Some? && Pair(Read([c, d]).value) == [c, d]
  {
    ReadOfTwo(c, d);
    var b := DigitValue(c) * 16 + DigitValue(d);
    assert b / 16 == DigitValue(c) && b % 16 == DigitValue(d);
    SameDigit(c);
    SameDigit(d);
  }

  lemma {:induction false} SameDigit(c: char)
    requires IsDigit(c) && !('A' <= c <= 'F')
    ensures Digit(DigitValue(c)) == c
  {
  }

  lemma {:induction false} CanonicalDecodes(s: string)
    requires Canonical(s)
    ensures Decode(s).Some? && Encode(Decode(s).value) == s
  {
    if s != "" {
      var c, d, rest := s[0], s[1], s[2..];
      CanonicalDecodes(rest);
      PairUndoesRead(c, d);
      assert s == [c, d] + rest;
      DecodeNext(c, d, rest);
      var b := Read([c, d]).value;
      assert ([b] + Decode(rest).value)[1..] == Decode(rest).value;
    }
  }

  /** Encoding gives back the decoded text exactly if that is an even number of lower-case digits. */
  lemma {:induction false} EncodeUndoesDecodeExactly(s: string)
    ensures (Decode(s).Some? && Encode(Decode(s).value) == s) <==> Canonical(s)
  {
    if Canonical(s) {
      CanonicalDecodes(s);
    } else if Decode(s).Some? {
      EncodeIsCanonical(Decode(s).value);
    }
  }

  /** A digit followed by anything else is accepted as that digit alone. */
  lemma {:induction false} JunkIsAccepted(c: char, junk: char, rest: string)
    requires IsDigit(c) && !IsDigit(junk)
    ensures Decode([c, junk] + rest) == Prepend([DigitValue(c)], Decode(rest))
  {
    ReadOfTwo(c, junk);
    DecodeNext(c, junk, rest);
  }

  // ---------------------------------------------------------------- which texts the decoder refuses

  /** A digit in front, or behind one white space or sign. */
  predicate Readable(chunk: string) {
    && chunk != ""
    && (|| IsDigit(chunk[0])
        || (|chunk| > 1 && IsDigit(chunk[1]) && chunk[0] in " \t\n\U{000B}\U{000C}\r+-"))
  }

  /** The i-th chunk; the last one of a text of odd length is a single character. */
  function Chunk(s: string, i: nat): (c: string)
    requires 2 * i < |s|
    ensures |c| <= 2
  {
    if 2 * i + 1 < |s| then s[2 * i..2 * i + 2] else s[2 * i..]
  }

  lemma {:induction false} ReadsExactly(chunk: string)
    requires |chunk| <= 2
    ensures Read(chunk).Some? <==> Readable(chunk)
  {
    var s := SkipSpaces(chunk);
    if |chunk| > 0 && IsSpace(chunk[0]) {
      assert s == SkipSpaces(chunk[1..]);
      if |chunk| > 1 && IsSpace(chunk[1]) {
        var last := chunk[1..];
        assert last[1..] == [] && SkipSpaces(last) == SkipSpaces(last[1..]);
      } else {
        assert s == chunk[1..];
      }
    } else {
      assert s == chunk;
    }
    assert forall t: string :: Leading(t) != [] <==> t != [] && IsDigit(t[0]);
  }

  lemma {:induction false} ChunksShift(s: string, i: nat)
    requires |s| >= 2 && 2 * i < |s| - 2
    ensures Chunk(s[2..], i) == Chunk(s, i + 1)
  {
  }

  /** Decoding fails exactly if some chunk has no digit where the reader looks for one. */
  lemma {:induction false} DecodesExactly(s: string)
    ensures Decode(s).Some? <==> forall i: nat :: 2 * i < |s| ==> Readable(Chunk(s, i))
  {
    if |s| == 1 || |s| == 2 {
      assert Chunk(s, 0) == s && s[..|s|] == s && s[|s|..] == "";
      assert Decode(s).Some? == Read(s).Some?;
      ReadsExactly(s);
      assert forall i: nat :: 2 * i < |s| ==> i == 0;
    } else if |s| > 2 {
      var rest := s[2..];
      ReadsExactly(s[..2]);
      DecodesExactly(rest);
      assert Chunk(s, 0) == s[..2];
      forall i: nat | 2 * i < |rest| ensures Chunk(rest, i) == Chunk(s, i + 1) {
        ChunksShift(s, i);
      }
      if Readable(s[..2]) && forall i: nat :: 2 * i < |rest| ==> Readable(Chunk(rest, i)) {
        forall i: nat | 2 * i < |s| ensures Readable(Chunk(s, i)) {
          if i > 0 {
            ChunksShift(s, i - 1);
          }
        }
      }
    }
  }

  /** Each chunk, the odd character at the end included, gives one byte, in order. */
  lemma {:induction false} DecodedByChunks(s: string, i: nat)
    requires Decode(s).Some? && 2 * i < |s|
    ensures |Decode(s).value| == (|s| + 1) / 2 && Read(Chunk(s, i)) == Some(Decode(s).value[i])
  {
    var n := ChunkSize(s);
    var rest := s[n..];
    if i > 0 {
      ChunksShift(s, i - 1);
      DecodedByChunks(rest, i - 1);
    } else {
      assert Chunk(s, 0) == s[..n];
      if rest != "" {
        DecodedByChunks(rest, 0);
      }
    }
  }

  // ---------------------------------------------------------------- the loops of the message handler

  method EncodeContent(bytes: seq<Byte>) returns (content: string)
    ensures content == Encode(bytes)
  {
    content := "";
    var i := 0;
    while i < |bytes|
      invariant 0 <= i <= |bytes|
      invariant Encode(bytes) == content + Encode(bytes[i..])
    {
      content := content + Pair(bytes[i]);
      assert bytes[i..][1..] == bytes[i + 1..];
      i := i + 1;
    }
  }

  /** None: reading a chunk threw. */
  method DecodeContent(content: string) returns (bytes: Option<seq<Byte>>)
    ensures bytes == Decode(content)
  {
    var done: seq<Byte> := [];
    var i := 0;
    PrependNothing(Decode(content));
    assert content[0..] == content;
    while i < |content|
      invariant 0 <= i <= |content|
      invariant Decode(content) == Prepend(done, Decode(content[i..]))
    {
      var n := ChunkSize(content[i..]);
      assert content[i..][..n] == content[i..i + n] && content[i..][n..] == content[i + n..];
      var b := Read(content[i..i + n]);
      if b.None? {
        return None;
      }
      PrependTwice(done, [b.value], Decode(content[i + n..]));
      done := done + [b.value];
      i := i + n;
    }
    assert done + [] == done;
    bytes := Some(done);
  }

  lemma {:induction false} PrependNothing(rest: Option<seq<Byte>>)
    ensures Prepend([], rest) == rest
  {
    assert rest.Some? ==> [] + rest.value == rest.value;
  }

  lemma {:induction false} PrependTwice(xs: seq<Byte>, ys: seq<Byte>, rest: Option<seq<Byte>>)
    ensures Prepend(xs, Prepend(ys, rest)) == Prepend(xs + ys, rest)
  {
    assert rest.Some? ==> xs + (ys + rest.value) == (xs + ys) + rest.value;
  }
}
