/** String, integer and alignment utilities (src/lib/util.cc). A C++
    `std::string_view` is a `string`, each character standing for one byte
    of the C++ string; a stream is reduced to its position, an int that is
    -1 when the position cannot be determined, and the bytes an operation
    writes or skips. A stream has no end here. */
module Util {
  import opened Arith
  import opened Wrappers

  // ---------------------------------------------------------------------
  // SplitString

  /** `std::string_view::npos`, the "not found" answer of find_first_of. */
  const Npos: int := -1

  /** `line.find_first_of(delim, from)`: the first index at or after `from`
      holding any character of `delim`, or Npos. */
  function FindFirstOf(line: string, delim: string, from: nat): (r: int)
    ensures r == Npos ==> forall i :: from <= i < |line| ==> line[i] !in delim
    ensures r != Npos ==> from <= r < |line| && line[r] in delim &&
                          forall i :: from <= i < r ==> line[i] !in delim
    decreases |line| - from
  {
    if from >= |line| then Npos
    else if line[from] in delim then from
    else FindFirstOf(line, delim, from + 1)
  }

  /** Reference definition of splitting, one character at a time: every
      delimiter character ends the current piece and starts a new one. */
  function Split(s: string, delim: string): (pieces: seq<string>)
    ensures |pieces| >= 1
  {
    if s == [] then [[]]
    else
      var rest := Split(s[1..], delim);
      if s[0] in delim then [[]] + rest
      else [[s[0]] + rest[0]] + rest[1..]
  }

  /** The pieces that are not empty, in their order. */
  function NonEmpty(pieces: seq<string>): (r: seq<string>)
    ensures forall i :: 0 <= i < |r| ==> r[i] != []
    ensures |r| <= |pieces|
  {
    if pieces == [] then []
    else NonEmpty(pieces[..|pieces| - 1])
         + (if pieces[|pieces| - 1] == [] then [] else [pieces[|pieces| - 1]])
  }

  /** Number of delimiter characters in s. */
  function CountDelims(s: string, delim: string): nat
  {
    if s == [] then 0 else (if s[0] in delim then 1 else 0) + CountDelims(s[1..], delim)
  }

  /** s with its delimiter characters removed. */
  function RemoveDelims(s: string, delim: string): string
  {
    if s == [] then [] else (if s[0] in delim then [] else [s[0]]) + RemoveDelims(s[1..], delim)
  }

  function Concat(pieces: seq<string>): string
  {
    if pieces == [] then [] else pieces[0] + Concat(pieces[1..])
  }

  /** A run of k non-delimiters that ends at a delimiter or at the end of s
      is the first piece of s. */
  lemma {:induction false} SplitBlock(s: string, delim: string, k: nat)
    requires k <= |s|
    requires forall i :: 0 <= i < k ==> s[i] !in delim
    requires k == |s| || s[k] in delim
    ensures Split(s, delim) == [s[..k]] + (if k < |s| then Split(s[k + 1..], delim) else [])
  {
    if k > 0 {
      SplitBlock(s[1..], delim, k - 1);
      assert s[1..][..k - 1] == s[1..k];
      assert [s[0]] + s[1..k] == s[..k];
      if k < |s| {
        assert s[1..][k..] == s[k + 1..];
      }
    }
  }

  /** Splitting yields one more piece than there are delimiter characters. */
  lemma {:induction false} SplitCount(s: string, delim: string)
    ensures |Split(s, delim)| == CountDelims(s, delim) + 1
  {
    if s != [] {
      SplitCount(s[1..], delim);
    }
  }

  /** No piece contains a delimiter character. */
  lemma {:induction false} SplitPiecesHaveNoDelims(s: string, delim: string)
    ensures forall i, j :: 0 <= i < |Split(s, delim)| && 0 <= j < |Split(s, delim)[i]|
                           ==> Split(s, delim)[i][j] !in delim
  {
    if s != [] {
      SplitPiecesHaveNoDelims(s[1..], delim);
    }
  }

  /** Concatenating the pieces gives s without its delimiter characters. */
  lemma {:induction false} SplitConcat(s: string, delim: string)
    ensures Concat(Split(s, delim)) == RemoveDelims(s, delim)
  {
    if s != [] {
      var rest := Split(s[1..], delim);
      SplitConcat(s[1..], delim);
      if s[0] !in delim {
        assert Concat(rest) == rest[0] + Concat(rest[1..]);
        assert Concat([[s[0]] + rest[0]] + rest[1..]) == [s[0]] + rest[0] + Concat(rest[1..]);
      }
    }
  }

  /** The pieces of the line from position pos on; none once pos is past
      the end. */
  function SplitFrom(line: string, delim: string, pos: nat): seq<string>
  {
    if pos <= |line| then Split(line[pos..], delim) else []
  }

  /** The piece that starts at prevPos and ends at the next delimiter (or at
      the end of the line) is the next piece of the line. */
  lemma SplitStep(line: string, delim: string, before: seq<string>, prevPos: nat, pos: nat)
    requires prevPos <= pos <= |line|
    requires forall i :: prevPos <= i < pos ==> line[i] !in delim
    requires pos == |line| || line[pos] in delim
    requires before + SplitFrom(line, delim, prevPos) == Split(line, delim)
    ensures (before + [line[prevPos..pos]]) + SplitFrom(line, delim, pos + 1) == Split(line, delim)
  {
    var piece, rest := line[prevPos..pos], SplitFrom(line, delim, pos + 1);
    SplitBlock(line[prevPos..], delim, pos - prevPos);
    assert line[prevPos..][..pos - prevPos] == piece;
    if pos < |line| {
      assert line[prevPos..][pos - prevPos + 1..] == line[pos + 1..];
    }
    assert SplitFrom(line, delim, prevPos) == [piece] + rest;
    assert before + ([piece] + rest) == (before + [piece]) + rest;
  }

  /** `SplitString`: the pieces of `line` between characters of `delim`;
      with `omitEmptyStrings`, only the non-empty ones. */
  method SplitString(line: string, delim: string, omitEmptyStrings: bool) returns (vec: seq<string>)
    ensures vec == (if omitEmptyStrings then NonEmpty(Split(line, delim)) else Split(line, delim))
  {
    vec := [];
    ghost var pieces: seq<string> := [];
    var prevPos: nat := 0;
    var pos: nat := 0;
    assert line[0..] == line;
    while pos <= |line|
      invariant prevPos == pos <= |line| + 1
      invariant pieces + SplitFrom(line, delim, pos) == Split(line, delim)
      invariant vec == (if omitEmptyStrings then NonEmpty(pieces) else pieces)
      decreases |line| + 1 - pos
    {
      var found := FindFirstOf(line, delim, pos);
      pos := if found == Npos then |line| else found;
      SplitStep(line, delim, pieces, prevPos, pos);
      var piece := line[prevPos..pos];
      if !omitEmptyStrings || pos != prevPos {
        vec := vec + [piece];
      }
      ghost var before := pieces;
      pieces := pieces + [piece];
      assert pieces[..|pieces| - 1] == before;
      pos := pos + 1;
      prevPos := pos;
    }
    assert pieces + [] == pieces;
  }

  // ---------------------------------------------------------------------
  // Integers

  const Int64Min: int := -(Pow2(63) as int)
  const Int64Max: int := Pow2(63) - 1

  predicate IsDigit(c: char) { '0' <= c <= '9' }

  predicate AllDigits(s: string) { forall i :: 0 <= i < |s| ==> IsDigit(s[i]) }

  /** The value of a string of decimal digits, most significant first. */
  function DigitsValue(s: string): nat
    requires AllDigits(s)
  {
    if s == [] then 0 else 10 * DigitsValue(s[..|s| - 1]) + (s[|s| - 1] as int - '0' as int)
  }

  /** Reference definition of a decimal integer literal: an optional minus
      sign followed by one or more digits, and nothing else. */
  predicate IsDecimalInteger(s: string)
  {
    (|s| > 0 && AllDigits(s)) || (|s| > 1 && s[0] == '-' && AllDigits(s[1..]))
  }

  function DecimalValue(s: string): int
    requires IsDecimalInteger(s)
  {
    if s[0] == '-' then -(DigitsValue(s[1..]) as int) else DigitsValue(s)
  }

  /** Length of the run of digits at the start of s. */
  function LeadingDigits(s: string): (k: nat)
    ensures k <= |s| && AllDigits(s[..k])
    ensures k < |s| ==> !IsDigit(s[k])
  {
    if s != [] && IsDigit(s[0]) then
      var k := 1 + LeadingDigits(s[1..]);
      assert s[..k] == [s[0]] + s[1..][..k - 1];
      k
    else 0
  }

  datatype Errc = NoError | InvalidArgument | ResultOutOfRange

  /** `std::from_chars` for a 64-bit integer, base 10: how many characters
      it consumed, its error code, and the value it stored (unchanged `n`
      on error). */
  datatype FromCharsResult = FromCharsResult(consumed: nat, ec: Errc, value: int)

  function FromChars(s: string, n: int): (r: FromCharsResult)
    ensures r.consumed <= |s|
  {
    var start := if |s| > 0 && s[0] == '-' then 1 else 0;
    var k := LeadingDigits(s[start..]);
    if k == 0 then FromCharsResult(0, InvalidArgument, n)
    else
      var magnitude := DigitsValue(s[start..][..k]);
      var v := if start == 1 then -(magnitude as int) else magnitude;
      if v < Int64Min || v > Int64Max then FromCharsResult(start + k, ResultOutOfRange, n)
      else FromCharsResult(start + k, NoError, v)
  }

  /** `ParseInt64`: the integer the whole of s spells, if it fits in 64 bits. */
  function ParseInt64(s: string): (r: Option<int>)
    ensures r.Some? <==> IsDecimalInteger(s) && Int64Min <= DecimalValue(s) <= Int64Max
    ensures r.Some? ==> r.value == DecimalValue(s)
  {
    var res := FromChars(s, 0);
    ParseAgreesWithReference(s);
    if res.ec != NoError || res.consumed != |s| then None else Some(res.value)
  }

  lemma ParseAgreesWithReference(s: string)
    ensures var res := FromChars(s, 0);
            (res.ec == NoError && res.consumed == |s|) <==>
              (IsDecimalInteger(s) && Int64Min <= DecimalValue(s) <= Int64Max)
    ensures var res := FromChars(s, 0);
            res.ec == NoError && res.consumed == |s| ==> res.value == DecimalValue(s)
  {
    var start := if |s| > 0 && s[0] == '-' then 1 else 0;
    var k := LeadingDigits(s[start..]);
    if start + k == |s| && k > 0 {
      assert s[start..][..k] == s[start..];
      if start == 0 {
        assert s[start..] == s;
      }
    }
    if IsDecimalInteger(s) {
      var t := s[start..];
      assert AllDigits(t);
      AllDigitsLeading(t);
    }
  }

  lemma {:induction false} AllDigitsLeading(s: string)
    requires AllDigits(s)
    ensures LeadingDigits(s) == |s|
  {
    if s != [] {
      AllDigitsLeading(s[1..]);
    }
  }

  /** `StrToInt64`: the parsed value with a cleared error flag, or 0 with the
      error flag set when the string is not a 64-bit integer or is negative
      where negatives are not allowed. */
  function StrToInt64(s: string, allowNegative: bool): (r: (int, bool))
    ensures r.1 <==> ParseInt64(s).None? || (!allowNegative && ParseInt64(s).value < 0)
    ensures r.1 ==> r.0 == 0
    ensures !r.1 ==> r.0 == DecimalValue(s) && (allowNegative || r.0 >= 0)
  {
    var maybeN := ParseInt64(s);
    if maybeN.None? || (!allowNegative && maybeN.value < 0) then (0, true)
    else (maybeN.value, false)
  }

  // ---------------------------------------------------------------------
  // Decimal printing (the `Int64ToStr` helper the library uses to build
  // type names)

  function DigitChar(d: nat): (c: char)
    requires d < 10
    ensures IsDigit(c) && c as int - '0' as int == d
  {
    (d + '0' as int) as char
  }

  function NatToDecimal(n: nat): (s: string)
    ensures |s| > 0 && AllDigits(s)
  {
    if n < 10 then [DigitChar(n)] else NatToDecimal(n / 10) + [DigitChar(n % 10)]
  }

  function IntToDecimal(i: int): string
  {
    if i < 0 then "-" + NatToDecimal(-i) else NatToDecimal(i)
  }

  lemma {:induction false} NatToDecimalValue(n: nat)
    ensures DigitsValue(NatToDecimal(n)) == n
  {
    if n >= 10 {
      var s := NatToDecimal(n);
      assert s[..|s| - 1] == NatToDecimal(n / 10);
      NatToDecimalValue(n / 10);
    }
  }

  /** Parsing the decimal rendering of a 64-bit integer gives it back. */
  lemma ParseInt64RoundTrip(i: int)
    requires Int64Min <= i <= Int64Max
    ensures ParseInt64(IntToDecimal(i)) == Some(i)
  {
    var s := IntToDecimal(i);
    if i < 0 {
      assert s[1..] == NatToDecimal(-i);
      NatToDecimalValue(-i);
    } else {
      NatToDecimalValue(i);
    }
  }

  // ---------------------------------------------------------------------
  // ConvertToLegalCSymbol

  /** `isalnum` in the C locale. */
  predicate IsAlnum(c: char)
  {
    ('a' <= c <= 'z') || ('A' <= c <= 'Z') || ('0' <= c <= '9')
  }

  /** Reference definition: every character that is not alphanumeric
      becomes an underscore. */
  function LegalCSymbol(s: string): (r: string)
    ensures |r| == |s|
  {
    seq(|s|, i requires 0 <= i < |s| => if IsAlnum(s[i]) then s[i] else '_')
  }

  /** The result is a legal C identifier body, and converting again changes
      nothing. */
  lemma LegalCSymbolIsLegal(s: string)
    ensures forall i :: 0 <= i < |s| ==> IsAlnum(LegalCSymbol(s)[i]) || LegalCSymbol(s)[i] == '_'
    ensures LegalCSymbol(LegalCSymbol(s)) == LegalCSymbol(s)
  {
  }

  /** `ConvertToLegalCSymbol`: rewrites the string in place. */
  method ConvertToLegalCSymbol(s: array<char>)
    modifies s
    ensures s[..] == LegalCSymbol(old(s[..]))
    ensures forall i :: 0 <= i < s.Length && IsAlnum(old(s[i])) ==> s[i] == old(s[i])
  {
    for i := 0 to s.Length
      invariant forall j :: 0 <= j < i ==> s[j] == (if IsAlnum(old(s[j])) then old(s[j]) else '_')
      invariant forall j :: i <= j < s.Length ==> s[j] == old(s[j])
    {
      if !IsAlnum(s[i]) {
        s[i] := '_';
      }
    }
  }

  // ---------------------------------------------------------------------
  // Alignment

  /** Number of bytes from position p to the next multiple of a. */
  function PadLength(p: nat, a: nat): (d: nat)
    requires a > 0
    ensures d < a
  {
    (a - p % a) % a
  }

  /** Stepping forward from p, the first multiple of a is reached after
      exactly PadLength(p, a) steps. */
  lemma PadLengthFirstAligned(p: nat, a: nat, i: nat)
    requires a > 0 && i <= PadLength(p, a)
    ensures (p + i) % a == 0 <==> i == PadLength(p, a)
  {
    var q, r := p / a, p % a;
    assert p == a * q + r;
    if r == 0 {
      assert PadLength(p, a) == 0;
    } else {
      assert PadLength(p, a) == a - r by {
        DivModUnique(a - r, a, 0, a - r);
      }
      if r + i < a {
        DivModUnique(p + i, a, q, r + i);
      } else {
        assert p + i == a * (q + 1) + 0;
        DivModUnique(p + i, a, q + 1, 0);
      }
    }
  }

  /** `AlignInput`: skips single characters until the stream position is a
      multiple of `align`; fails when the starting position is unknown.
      The input never runs out, so a read past its end cannot fail. */
  method AlignInput(pos0: int, align: nat) returns (ok: bool, pos: int, skipped: nat)
    requires pos0 >= -1
    ensures ok <==> pos0 >= 0 || align == 0
    ensures ok && align > 0 ==> pos == pos0 + skipped && skipped == PadLength(pos0, align) &&
                                pos % align == 0
    ensures align == 0 ==> pos == pos0 && skipped == 0
  {
    pos, skipped := pos0, 0;
    var i := 0;
    while i < align
      invariant 0 <= i <= align
      invariant pos == pos0 + skipped && skipped == i
      invariant pos0 < 0 ==> i == 0
      invariant pos0 >= 0 && align > 0 ==> i <= PadLength(pos0, align)
    {
      if pos < 0 {
        return false, pos, skipped;
      }
      PadLengthFirstAligned(pos0, align, i);
      if pos % align == 0 {
        break;
      }
      pos, skipped := pos + 1, skipped + 1;
      i := i + 1;
    }
    if align > 0 {
      PadLengthFirstAligned(pos0, align, i);
    }
    ok := true;
  }

  /** `AlignOutput`: writes null characters until the stream position is a
      multiple of `align`; fails when the position is unknown. */
  method AlignOutput(pos0: int, align: nat) returns (ok: bool, pos: int, written: string)
    requires pos0 >= -1
    ensures ok <==> pos0 >= 0 || align == 0
    ensures forall i :: 0 <= i < |written| ==> written[i] == '\0'
    ensures ok && align > 0 ==> pos == pos0 + |written| && |written| == PadLength(pos0, align) &&
                                pos % align == 0
    ensures align == 0 ==> pos == pos0 && written == []
  {
    pos, written := pos0, [];
    var i := 0;
    while i < align
      invariant 0 <= i <= align
      invariant pos == pos0 + |written| && |written| == i
      invariant forall j :: 0 <= j < |written| ==> written[j] == '\0'
      invariant pos0 < 0 ==> i == 0
      invariant pos0 >= 0 && align > 0 ==> i <= PadLength(pos0, align)
    {
      if pos < 0 {
        return false, pos, written;
      }
      PadLengthFirstAligned(pos0, align, i);
      if pos % align == 0 {
        break;
      }
      pos, written := pos + 1, written + ['\0'];
      i := i + 1;
    }
    if align > 0 {
      PadLengthFirstAligned(pos0, align, i);
    }
    ok := true;
  }

  /** `AlignBufferWithOutputStream`: appends `pos % align` null characters to
      the buffer and returns that count, or returns -1 when the stream
      position is unknown. */
  method AlignBufferWithOutputStream(strmPos: int, buffer: string, align: nat)
    returns (r: int, buffer': string)
    requires strmPos >= -1 && align > 0
    ensures strmPos == -1 ==> r == -1 && buffer' == buffer
    ensures strmPos >= 0 ==> r == strmPos % align && 0 <= r < align
    ensures strmPos >= 0 ==> |buffer'| == |buffer| + r && buffer'[..|buffer|] == buffer &&
                             forall i :: |buffer| <= i < |buffer'| ==> buffer'[i] == '\0'
  {
    if strmPos == -1 {
      return -1, buffer;
    }
    var streamOffset := strmPos % align;
    buffer' := buffer;
    for i := 0 to streamOffset
      invariant |buffer'| == |buffer| + i && buffer'[..|buffer|] == buffer
      invariant forall j :: |buffer| <= j < |buffer'| ==> buffer'[j] == '\0'
    {
      buffer' := buffer' + ['\0'];
    }
    r := streamOffset;
  }
}
