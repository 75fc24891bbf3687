/** Hexadecimal text, with the alphabet of section 8 of RFC 4648. */
module HexHelper {
  import opened FixedWidth
  import opened ByteOrder
  import opened TypedValues

  predicate IsHexDigit(c: char) {
    '0' <= c <= '9' || 'a' <= c <= 'f' || 'A' <= c <= 'F'
  }

  /** `char.ToUpper` on hexadecimal digits. */
  function Upper(c: char): (u: char)
    requires IsHexDigit(c)
    ensures '0' <= u <= '9' || 'A' <= u <= 'F'
  {
    if 'a' <= c <= 'f' then c - 'a' + 'A' else c
  }

  function DigitValue(c: char): (v: nat)
    requires IsHexDigit(c)
    ensures v < 16
  {
    if '0' <= c <= '9' then c as int - '0' as int
    else if 'a' <= c <= 'f' then c as int - 'a' as int + 10
    else c as int - 'A' as int + 10
  }

  function Digit(v: nat): (c: char)
    requires v < 16
    ensures IsHexDigit(c) && Upper(c) == c && DigitValue(c) == v
  {
    if v < 10 then '0' + v as char else 'A' + (v - 10) as char
  }

  /** `ToString("X2")`. */
  function Pair(b: Byte): (s: string)
    ensures |s| == 2
  {
    [Digit(b / 16), Digit(b % 16)]
  }

  function Pairs(bytes: seq<Byte>): (s: string)
    ensures |s| == 2 * |bytes|
  {
    if bytes == [] then "" else Pairs(bytes[..|bytes| - 1]) + Pair(bytes[|bytes| - 1])
  }

  /** The hexadecimal digits of a text, in upper case. */
  function Digits(s: string): string {
    if s == "" then ""
    else Digits(s[..|s| - 1]) + if IsHexDigit(s[|s| - 1]) then [Upper(s[|s| - 1])] else ""
  }

  ghost predicate AllDigits(s: string) {
    forall i :: 0 <= i < |s| ==> IsHexDigit(s[i])
  }

  /** The bytes that pairs of digits denote. */
  function Denoted(s: string): (bytes: seq<Byte>)
    requires AllDigits(s) && |s| % 2 == 0
    ensures |bytes| == |s| / 2
  {
    if s == "" then []
    else Denoted(s[..|s| - 2]) + [(16 * DigitValue(s[|s| - 2]) + DigitValue(s[|s| - 1])) as Byte]
  }

  /** `HexToBytes`: `None` when the number of digits is odd. */
  function Parsed(s: string): Option<seq<Byte>> {
    DigitsAreDigits(s);
    if |Digits(s)| % 2 != 0 then None else Some(Denoted(Digits(s)))
  }

  lemma {:induction false} DigitsAreDigits(s: string)
    ensures AllDigits(Digits(s))
  {
    if s != "" { DigitsAreDigits(s[..|s| - 1]); }
  }

  // ----- The methods -----

  method CleanInput(input: string) returns (r: string)
    ensures r == Digits(input)
  {
    var chars: seq<char> := [];
    for i := 0 to |input|
      invariant chars == Digits(input[..i])
    {
      assert input[..i + 1][..i] == input[..i];
      if IsHexDigit(input[i]) {
        chars := chars + [Upper(input[i])];
      }
    }
    assert input[..|input|] == input;
    return chars;
  }

  lemma DenotedNone()
    ensures Denoted("") == []
  {
  }

  /** One more pair of digits denotes one more byte. */
  lemma DenotedMore(s: string, i: nat)
    requires AllDigits(s) && 2 * i + 2 <= |s|
    ensures Denoted(s[..2 * (i + 1)])
         == Denoted(s[..2 * i]) + [(16 * DigitValue(s[2 * i]) + DigitValue(s[2 * i + 1])) as Byte]
  {
    hide IsHexDigit, DigitValue;
    assert s[..2 * (i + 1)][..2 * i] == s[..2 * i];
  }

  method HexToBytes(str: string) returns (r: Option<seq<Byte>>)
    ensures r == Parsed(str)
  {
    var cleanInput := CleanInput(str);
    DigitsAreDigits(str);
    if |cleanInput| % 2 != 0 {
      return None;
    }
    var length := |cleanInput| / 2;
    var bytes := new Byte[length](_ => 0);
    hide Denoted, Digits, IsHexDigit, DigitValue, Upper;
    DenotedNone();
    for i := 0 to length
      invariant bytes[..i] == Denoted(cleanInput[..2 * i])
    {
      var pair := cleanInput[2 * i..2 * i + 2];
      DenotedMore(cleanInput, i);
      bytes[i] := 16 * DigitValue(pair[0]) + DigitValue(pair[1]);
      assert bytes[..i + 1] == bytes[..i] + [bytes[i]];
    }
    assert bytes[..length] == bytes[..] && cleanInput[..2 * length] == cleanInput;
    return Some(bytes[..]);
  }

  method ToHex(bytes: seq<Byte>) returns (str: string)
    ensures str == Pairs(bytes)
  {
    str := "";
    for i := 0 to |bytes|
      invariant str == Pairs(bytes[..i])
    {
      assert bytes[..i + 1][..i] == bytes[..i];
      str := str + Pair(bytes[i]);
    }
    assert bytes[..|bytes|] == bytes;
  }

  /** All bytes but the last, each followed by a space, with a line break where one is due. */
  function Lines(bytes: seq<Byte>, perLine: int, n: nat): string
    requires n <= |bytes| && (perLine != 0 || n == 0)
  {
    if n == 0 then "" else Lines(bytes, perLine, n - 1) + Gap(perLine, n - 1) + Pair(bytes[n - 1]) + " "
  }

  function Gap(perLine: int, i: int): string
    requires perLine != 0
  {
    if perLine != -1 && i % perLine == 0 then "\n" else ""
  }

  /** What a C# caller can pass: arrays are shorter than the largest 32-bit integer. */
  predicate ViewArguments(bytes: seq<Byte>, perLine: int, length: int) {
    |bytes| < INT32_MAX && IsInt32(perLine) && IsInt32(length)
  }

  /** `ToHexView`: -1 stands for the whole array; `None` when it indexes past the end or divides by zero. The bound of the
      loop is a 32-bit difference. */
  function Viewed(bytes: seq<Byte>, perLine: int, length: int): Option<string>
    requires ViewArguments(bytes, perLine, length)
  {
    var n := if length == -1 then |bytes| else length;
    var bound := WrapInt32(n - 1);
    if bound > |bytes| || (perLine == 0 && bound > 0) then None
    else
      var lines := Lines(bytes, perLine, if bound > 0 then bound else 0);
      if n <= 0 then Some(lines)
      else if n > |bytes| then None
      else Some(lines + Pair(bytes[n - 1]))
  }

  lemma NoLines(bytes: seq<Byte>, perLine: int)
    ensures Lines(bytes, perLine, 0) == ""
  {
  }

  lemma LinesNext(bytes: seq<Byte>, perLine: int, i: nat)
    requires i < |bytes| && perLine != 0
    ensures Lines(bytes, perLine, i + 1) == Lines(bytes, perLine, i) + Gap(perLine, i) + (Pair(bytes[i]) + " ")
  {
    hide Pair, Gap;
  }

  lemma GapText(perLine: int, i: int)
    requires perLine != 0
    ensures Gap(perLine, i) == if perLine != -1 && i % perLine == 0 then "\n" else ""
  {
  }

  lemma ViewedCases(bytes: seq<Byte>, perLine: int, length: int)
    requires ViewArguments(bytes, perLine, length)
    ensures var n := if length == -1 then |bytes| else length;
      var bound := WrapInt32(n - 1);
      && (bound > |bytes| || (perLine == 0 && bound > 0) ==> Viewed(bytes, perLine, length) == None)
      && (0 < bound <= |bytes| && perLine != 0 && n <= 0 ==>
        Viewed(bytes, perLine, length) == Some(Lines(bytes, perLine, bound)))
      && (bound <= 0 && n <= 0 ==> Viewed(bytes, perLine, length) == Some(Lines(bytes, perLine, 0)))
      && (0 < bound <= |bytes| && perLine != 0 && n > 0 ==>
        Viewed(bytes, perLine, length) ==
          if n > |bytes| then None else Some(Lines(bytes, perLine, bound) + Pair(bytes[n - 1])))
      && (bound <= 0 && n > 0 ==>
        Viewed(bytes, perLine, length) ==
          if n > |bytes| then None else Some(Lines(bytes, perLine, 0) + Pair(bytes[n - 1])))
  {
    hide WrapInt32, Lines, Pair;
  }

  method ToHexView(bytes: seq<Byte>, perLine: int, length: int) returns (r: Option<string>)
    requires ViewArguments(bytes, perLine, length)
    ensures r == Viewed(bytes, perLine, length)
  {
    var n := if length == -1 then |bytes| else length;
    var bound := WrapInt32(n - 1);
    ViewedCases(bytes, perLine, length);
    WrapOnce(n - 1);
    hide WrapInt32, Lines, Pair, Gap, Viewed;
    NoLines(bytes, perLine);
    var str := "";
    var i := 0;
    while i < bound
      invariant 0 <= i <= |bytes| && (i > 0 ==> i <= bound)
      invariant perLine != 0 || i == 0
      invariant str == Lines(bytes, perLine, i)
      decreases bound - i
    {
      if perLine == 0 {
        return None;
      }
      GapText(perLine, i);
      if perLine != -1 && i % perLine == 0 {
        str := str + "\n";
      }
      if i >= |bytes| {
        return None;
      }
      LinesNext(bytes, perLine, i);
      str := str + (Pair(bytes[i]) + " ");
      i := i + 1;
    }
    if n > 0 {
      if n - 1 >= |bytes| {
        return None;
      }
      str := str + Pair(bytes[n - 1]);
    }
    return Some(str);
  }

  method IsHex(str: string) returns (r: bool)
    ensures r <==> |str| % 2 == 0 && AllDigits(str)
  {
    if |str| % 2 != 0 {
      return false;
    }
    for i := 0 to |str|
      invariant forall j :: 0 <= j < i ==> IsHexDigit(str[j])
    {
      if !IsHexDigit(str[i]) {
        return false;
      }
    }
    return true;
  }

  // ----- Round trips -----

  lemma {:induction false} DigitsAppend(a: string, b: string)
    ensures Digits(a + b) == Digits(a) + Digits(b)
    decreases |b|
  {
    if b == "" {
      assert a + b == a;
    } else {
      assert (a + b)[..|a + b| - 1] == a + b[..|b| - 1];
      DigitsAppend(a, b[..|b| - 1]);
    }
  }

  lemma DigitsOfOne(c: char)
    ensures Digits([c]) == if IsHexDigit(c) then [Upper(c)] else ""
  {
    assert [c][..0] == "";
  }

  lemma DigitsOfPair(b: Byte)
    ensures Digits(Pair(b)) == Pair(b)
  {
    hide Digits;
    var hi, lo := Digit(b / 16), Digit(b % 16);
    assert Pair(b) == [hi] + [lo];
    DigitsAppend([hi], [lo]);
    DigitsOfOne(hi);
    DigitsOfOne(lo);
  }

  lemma SeparatorsHaveNoDigits(perLine: int, i: int)
    requires perLine != 0
    ensures Digits(" ") == "" && Digits(Gap(perLine, i)) == ""
  {
    DigitsOfOne(' ');
    DigitsOfOne('\n');
  }

  lemma {:induction false} DigitsOfPairs(bytes: seq<Byte>)
    ensures Digits(Pairs(bytes)) == Pairs(bytes)
  {
    if bytes != [] {
      var init, last := bytes[..|bytes| - 1], bytes[|bytes| - 1];
      DigitsOfPairs(init);
      DigitsAppend(Pairs(init), Pair(last));
      DigitsOfPair(last);
    }
  }

  lemma {:induction false} DenotedPairs(bytes: seq<Byte>)
    ensures AllDigits(Pairs(bytes)) && Denoted(Pairs(bytes)) == bytes
  {
    hide Pair, Denoted, AllDigits;
    if bytes == [] {
      NothingDenoted();
    } else {
      var init, last := bytes[..|bytes| - 1], bytes[|bytes| - 1];
      DenotedPairs(init);
      assert Pairs(bytes) == Pairs(init) + Pair(last);
      DenotedNext(Pairs(init), last);
      assert bytes == init + [last];
    }
  }

  lemma DigitsTogether(s: string, hi: char, lo: char)
    requires AllDigits(s) && |s| % 2 == 0 && IsHexDigit(hi) && IsHexDigit(lo)
    ensures AllDigits(s + [hi, lo]) && |s + [hi, lo]| % 2 == 0
  {
  }

  lemma DenotedNext(s: string, b: Byte)
    requires AllDigits(s) && |s| % 2 == 0
    ensures AllDigits(s + Pair(b)) && |s + Pair(b)| % 2 == 0 && Denoted(s + Pair(b)) == Denoted(s) + [b]
  {
    var hi, lo := Digit(b / 16), Digit(b % 16);
    assert 16 * DigitValue(hi) + DigitValue(lo) == b;
    hide Digit, DigitValue, IsHexDigit, Upper;
    DigitsTogether(s, hi, lo);
    assert (s + [hi, lo])[..|s|] == s;
  }

  /** Parsing what the printer prints gives the bytes back. */
  lemma ToHexRoundTrip(bytes: seq<Byte>)
    ensures Parsed(Pairs(bytes)) == Some(bytes)
  {
    DigitsOfPairs(bytes);
    DenotedPairs(bytes);
  }

  lemma {:induction false} DigitsOfLines(bytes: seq<Byte>, perLine: int, n: nat)
    requires n <= |bytes| && (perLine != 0 || n == 0)
    ensures Digits(Lines(bytes, perLine, n)) == Pairs(bytes[..n])
  {
    hide Pair, Digits, Gap;
    if n == 0 {
      NoBytes(bytes, perLine);
    } else {
      var head, gap, pair := Lines(bytes, perLine, n - 1), Gap(perLine, n - 1), Pair(bytes[n - 1]);
      DigitsOfLines(bytes, perLine, n - 1);
      DigitsOfPair(bytes[n - 1]);
      SeparatorsHaveNoDigits(perLine, n - 1);
      DigitsAppend(head, gap);
      DigitsAppend(head + gap, pair);
      DigitsAppend(head + gap + pair, " ");
      PairsNext(bytes, n);
    }
  }

  lemma NoBytes(bytes: seq<Byte>, perLine: int)
    ensures Digits(Lines(bytes, perLine, 0)) == Pairs(bytes[..0])
  {
  }

  lemma PairsNext(bytes: seq<Byte>, n: nat)
    requires 0 < n <= |bytes|
    ensures Pairs(bytes[..n]) == Pairs(bytes[..n - 1]) + Pair(bytes[n - 1])
  {
    assert bytes[..n][..n - 1] == bytes[..n - 1];
  }

  /** The separators of a view are exactly what the parser drops: parsing a view of the first `n` bytes gives those bytes,
      for every line width; a view is refused exactly when it asks for too many bytes, divides by zero, or has the one
      length whose loop bound wraps around. */
  lemma ViewRoundTrip(bytes: seq<Byte>, perLine: int, length: int)
    requires ViewArguments(bytes, perLine, length)
    ensures var n := if length == -1 then |bytes| else if length < 0 then 0 else length;
      && (Viewed(bytes, perLine, length).Some? <==>
          length != -0x8000_0000 && n <= |bytes| && (perLine != 0 || n <= 1))
      && (Viewed(bytes, perLine, length).Some? ==> Parsed(Viewed(bytes, perLine, length).value) == Some(bytes[..n]))
  {
    hide Pair, Digits, Pairs, Parsed;
    var n := if length == -1 then |bytes| else if length < 0 then 0 else length;
    WrapOnce((if length == -1 then |bytes| else length) - 1);
    hide WrapInt32;
    if Viewed(bytes, perLine, length).Some? {
      ToHexRoundTrip(bytes[..n]);
      if n == 0 {
        assert bytes[..n] == [];
        NothingParsed();
      } else {
        DigitsOfLines(bytes, perLine, n - 1);
        DigitsOfPair(bytes[n - 1]);
        DigitsAppend(Lines(bytes, perLine, n - 1), Pair(bytes[n - 1]));
        PairsNext(bytes, n);
        DigitsOfPairs(bytes[..n]);
        ParsedByDigits(Viewed(bytes, perLine, length).value, Pairs(bytes[..n]));
      }
    }
  }

  /** The smallest length is refused, though every other negative length gives an empty view. */
  lemma SmallestLengthThrows(bytes: seq<Byte>)
    requires |bytes| < INT32_MAX
    ensures Viewed(bytes, -1, -0x8000_0000) == None && Viewed(bytes, -1, -0x7FFF_FFFF) == Some("")
  {
    WrapOnce(-0x8000_0001);
    WrapOnce(-0x8000_0000);
    hide WrapInt32;
    assert Lines(bytes, -1, 0) == "";
  }

  lemma NothingParsed()
    ensures Parsed("") == Some([])
  {
  }

  /** Texts with the same digits are parsed alike. */
  lemma ParsedByDigits(s: string, t: string)
    requires Digits(s) == Digits(t)
    ensures Parsed(s) == Parsed(t)
  {
  }

  lemma DenotedLast(s: string)
    requires AllDigits(s) && |s| % 2 == 0 && s != ""
    ensures var n := |Denoted(s)| - 1;
      && n >= 0 && Denoted(s)[..n] == Denoted(s[..|s| - 2])
      && Denoted(s)[n] == 16 * DigitValue(s[|s| - 2]) + DigitValue(s[|s| - 1])
  {
  }

  lemma PairOfDigits(hi: char, lo: char)
    requires IsHexDigit(hi) && IsHexDigit(lo) && Upper(hi) == hi && Upper(lo) == lo
    ensures Pair(16 * DigitValue(hi) + DigitValue(lo)) == [hi, lo]
  {
    DigitOfValue(hi);
    DigitOfValue(lo);
    var b := 16 * DigitValue(hi) + DigitValue(lo);
    assert b / 16 == DigitValue(hi) && b % 16 == DigitValue(lo);
  }

  lemma {:induction false} PairsOfDenoted(s: string)
    requires AllDigits(s) && |s| % 2 == 0 && forall i :: 0 <= i < |s| ==> Upper(s[i]) == s[i]
    ensures Pairs(Denoted(s)) == s
  {
    hide Pair, Denoted, DigitValue;
    if s == "" {
      NothingDenoted();
    } else {
      var hi, lo := s[|s| - 2], s[|s| - 1];
      PairsOfDenoted(s[..|s| - 2]);
      DenotedLast(s);
      PairOfDigits(hi, lo);
      assert s == s[..|s| - 2] + [hi, lo];
    }
  }

  lemma NothingDenoted()
    ensures AllDigits("") && Denoted("") == []
  {
  }

  lemma DigitOfValue(c: char)
    requires IsHexDigit(c) && Upper(c) == c
    ensures Digit(DigitValue(c)) == c
  {
  }

  lemma {:induction false} DigitsAreUpper(s: string)
    ensures AllDigits(Digits(s)) && forall i :: 0 <= i < |Digits(s)| ==> Upper(Digits(s)[i]) == Digits(s)[i]
  {
    if s != "" { DigitsAreUpper(s[..|s| - 1]); }
  }

  /** Text is parsed exactly when its number of hexadecimal digits is even, and printing the result gives those digits
      in upper case. */
  lemma TextRoundTrip(s: string)
    ensures Parsed(s).Some? <==> |Digits(s)| % 2 == 0
    ensures Parsed(s).Some? ==> Pairs(Parsed(s).value) == Digits(s)
  {
    DigitsAreUpper(s);
    if |Digits(s)| % 2 == 0 { PairsOfDenoted(Digits(s)); }
  }

  // ----- What the texts say -----

  lemma {:induction false} DigitsKept(s: string)
    requires AllDigits(s)
    ensures |Digits(s)| == |s| && forall i :: 0 <= i < |s| ==> Digits(s)[i] == Upper(s[i])
  {
    hide Upper, IsHexDigit;
    if s != "" { DigitsKept(s[..|s| - 1]); }
  }

  lemma {:induction false} DenotedAt(s: string, i: nat)
    requires AllDigits(s) && |s| % 2 == 0 && 2 * i + 1 < |s|
    ensures Denoted(s)[i] == 16 * DigitValue(s[2 * i]) + DigitValue(s[2 * i + 1])
    decreases |s|
  {
    hide DigitValue, IsHexDigit;
    if 2 * i + 2 < |s| { DenotedAt(s[..|s| - 2], i); }
  }

  lemma UpperValue(c: char)
    requires IsHexDigit(c)
    ensures DigitValue(Upper(c)) == DigitValue(c)
  {
  }

  /** Pairs of digits of either case are read as the bytes they denote. */
  lemma ParsedPairs(s: string, i: nat)
    requires |s| % 2 == 0 && 2 * i + 1 < |s|
    requires forall j :: 0 <= j < |s| ==> '0' <= s[j] <= '9' || 'a' <= s[j] <= 'f' || 'A' <= s[j] <= 'F'
    ensures Parsed(s).Some? && |Parsed(s).value| == |s| / 2
    ensures var value := (c: char) =>
        if '0' <= c <= '9' then c as int - '0' as int
        else if 'a' <= c <= 'f' then c as int - 'a' as int + 10
        else c as int - 'A' as int + 10;
      Parsed(s).value[i] == 16 * value(s[2 * i]) + value(s[2 * i + 1])
  {
    DigitsKept(s);
    DigitsAreDigits(s);
    DenotedAt(Digits(s), i);
    UpperValue(s[2 * i]);
    UpperValue(s[2 * i + 1]);
    hide Digits, Denoted, Upper;
  }

  /** Any other character can be left out. */
  lemma OtherCharactersDrop(a: string, c: char, b: string)
    requires !('0' <= c <= '9') && !('a' <= c <= 'f') && !('A' <= c <= 'F')
    ensures Parsed(a + [c] + b) == Parsed(a + b)
  {
    hide Digits, Denoted;
    DigitsOfOne(c);
    DigitsAppend(a, [c]);
    DigitsAppend(a + [c], b);
    DigitsAppend(a, b);
    assert Digits(a) + "" == Digits(a);
  }

  /** A printed byte is two characters of the alphabet. */
  lemma PairCharacters(b: Byte)
    ensures Pair(b) == ["0123456789ABCDEF"[b / 16], "0123456789ABCDEF"[b % 16]]
  {
    DigitCharacter(b / 16);
    DigitCharacter(b % 16);
  }

  lemma DigitCharacter(v: nat)
    requires v < 16
    ensures Digit(v) == "0123456789ABCDEF"[v]
  {
    var alphabet := "0123456789ABCDEF";
    assert v < 10 ==> alphabet[v] == '0' + v as char;
    assert v >= 10 ==> alphabet[v] == 'A' + (v - 10) as char;
  }

  /** `ToHex` prints byte `i` at `2 * i`. */
  lemma {:induction false} PrintedAt(bytes: seq<Byte>, i: nat)
    requires i < |bytes|
    ensures |Pairs(bytes)| == 2 * |bytes|
    ensures Pairs(bytes)[2 * i..2 * i + 2] == ["0123456789ABCDEF"[bytes[i] / 16], "0123456789ABCDEF"[bytes[i] % 16]]
    decreases |bytes|
  {
    hide Pair;
    var n := |bytes| - 1;
    if i < n {
      PrintedAt(bytes[..n], i);
      assert Pairs(bytes)[2 * i..2 * i + 2] == Pairs(bytes[..n])[2 * i..2 * i + 2];
    } else {
      PairCharacters(bytes[n]);
    }
  }
}
