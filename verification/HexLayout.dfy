/** Where the characters of a hexadecimal view stand. */
module HexLayouts {
  import opened FixedWidth
  import opened ByteOrder
  import opened TypedValues
  import opened HexHelper

  /** The number of bytes in a line; a negative line width counts as its absolute value. */
  function Width(perLine: int): (k: nat)
    requires perLine != 0
    ensures k > 0
  {
    if perLine < 0 then -perLine else perLine
  }

  /** How many of the first `m` bytes start a line of `k`. */
  function Breaks(k: nat, m: nat): (n: nat)
    requires k > 0
  {
    if m == 0 then 0 else (m - 1) / k + 1
  }

  lemma NoBreaks(k: nat)
    requires k > 0
    ensures Breaks(k, 0) == 0
  {
  }

  lemma BreaksNext(k: nat, m: nat)
    requires k > 0
    ensures Breaks(k, m + 1) == Breaks(k, m) + if m % k == 0 then 1 else 0
  {
    if m > 0 {
      var q, r := (m - 1) / k, (m - 1) % k;
      assert m - 1 == q * k + r;
      if r == k - 1 {
        assert m == (q + 1) * k;
        QuotientUnique(m, k, q + 1, 0);
        ModUnique(m, k, q + 1, 0);
      } else {
        QuotientUnique(m, k, q, r + 1);
        ModUnique(m, k, q, r + 1);
      }
    }
  }

  lemma GapIs(perLine: int, i: nat)
    requires perLine != 0 && perLine != -1
    ensures Gap(perLine, i) == if i % Width(perLine) == 0 then "\n" else ""
  {
    var q, r := i / perLine, i % perLine;
    assert i == q * perLine + r;
    if perLine < 0 {
      assert q * perLine == (-q) * (-perLine);
      ModUnique(i, -perLine, -q, r);
    }
  }

  lemma {:induction false} LinesLength(bytes: seq<Byte>, perLine: int, n: nat)
    requires n <= |bytes| && perLine != 0 && perLine != -1
    ensures |Lines(bytes, perLine, n)| == 3 * n + Breaks(Width(perLine), n)
  {
    hide Pair, Gap, Breaks, Lines, Width;
    if n == 0 {
      NoLines(bytes, perLine);
      NoBreaks(Width(perLine));
    } else {
      LinesLength(bytes, perLine, n - 1);
      LinesNext(bytes, perLine, n - 1);
      GapIs(perLine, n - 1);
      BreaksNext(Width(perLine), n - 1);
    }
  }

  /** A triple at the end of a text, after an optional line break. */
  lemma LastTriple(before: string, gap: string, triple: string)
    requires |triple| == 3
    ensures var text := before + gap + triple;
      text[..|before|] == before && text[|before + gap|..|before + gap| + 3] == triple
      && (gap != "" ==> text[|before + gap| - 1] == gap[|gap| - 1])
  {
  }

  /** Byte `i` stands at `at` of a text: two characters and a space, after a line break if it starts a line of `k`. */
  ghost predicate StandsAt(text: string, at: int, byte: Byte, starts: bool) {
    && 1 <= at && at + 3 <= |text| && text[at..at + 3] == Pair(byte) + " "
    && (starts ==> text[at - 1] == '\n')
  }

  /** Byte `i` stands after three characters for every byte before it and the line breaks so far. */
  lemma {:induction false} LinesAt(bytes: seq<Byte>, perLine: int, n: nat, i: nat)
    requires i < n <= |bytes| && perLine != 0 && perLine != -1
    ensures var k := Width(perLine);
      StandsAt(Lines(bytes, perLine, n), 3 * i + Breaks(k, i + 1), bytes[i], i % k == 0)
    decreases n
  {
    hide Pair, Gap, Breaks, Lines, Width, StandsAt;
    if i < n - 1 {
      LinesAt(bytes, perLine, n - 1, i);
      var k := Width(perLine);
      LinesNext(bytes, perLine, n - 1);
      var before, gap, triple := Lines(bytes, perLine, n - 1), Gap(perLine, n - 1), Pair(bytes[n - 1]) + " ";
      StillStands(before, gap + triple, 3 * i + Breaks(k, i + 1), bytes[i], i % k == 0);
      assert before + (gap + triple) == before + gap + triple;
    } else {
      LastAt(bytes, perLine, n);
    }
  }

  lemma StillStands(a: string, b: string, at: int, byte: Byte, starts: bool)
    requires StandsAt(a, at, byte, starts)
    ensures StandsAt(a + b, at, byte, starts)
  {
    hide Pair;
    assert (a + b)[at..at + 3] == a[at..at + 3];
  }

  lemma LastAt(bytes: seq<Byte>, perLine: int, n: nat)
    requires 0 < n <= |bytes| && perLine != 0 && perLine != -1
    ensures var k := Width(perLine);
      StandsAt(Lines(bytes, perLine, n), 3 * (n - 1) + Breaks(k, n), bytes[n - 1], (n - 1) % k == 0)
  {
    hide Pair, Gap, Breaks, Lines, Width, StandsAt;
    var k := Width(perLine);
    var before, gap := Lines(bytes, perLine, n - 1), Gap(perLine, n - 1);
    LinesNext(bytes, perLine, n - 1);
    LinesLength(bytes, perLine, n - 1);
    GapIs(perLine, n - 1);
    BreaksNext(k, n - 1);
    FirstBreak(k, n - 1);
    TripleStands(before, gap, bytes[n - 1], (n - 1) % k == 0);
  }

  lemma TripleStands(before: string, gap: string, byte: Byte, starts: bool)
    requires |before + gap| >= 1 && (starts ==> gap == "\n")
    ensures StandsAt(before + gap + (Pair(byte) + " "), |before + gap|, byte, starts)
  {
    var triple := Pair(byte) + " ";
    hide Pair;
    LastTriple(before, gap, triple);
  }

  lemma FirstBreak(k: nat, i: nat)
    requires k > 0
    ensures Breaks(k, i + 1) >= 1
  {
  }

  lemma {:induction false} OneLine(bytes: seq<Byte>, n: nat, i: nat)
    requires i < n <= |bytes|
    ensures |Lines(bytes, -1, n)| == 3 * n && Lines(bytes, -1, n)[3 * i..3 * i + 3] == Pair(bytes[i]) + " "
    decreases n
  {
    var before, triple := Lines(bytes, -1, n - 1), Pair(bytes[n - 1]) + " ";
    LinesNext(bytes, -1, n - 1);
    assert before + Gap(-1, n - 1) == before;
    hide Pair, Lines;
    if n == 1 {
      NoLines(bytes, -1);
    } else {
      OneLine(bytes, n - 1, if i < n - 1 then i else 0);
    }
    if i < n - 1 { assert (before + triple)[3 * i..3 * i + 3] == before[3 * i..3 * i + 3]; }
  }

  /** A view of `n` bytes without line breaks: pairs of characters with single spaces between them. */
  lemma ViewInOneLine(bytes: seq<Byte>, n: nat, i: nat)
    requires i < n <= |bytes| < INT32_MAX
    ensures Viewed(bytes, -1, n).Some? && |Viewed(bytes, -1, n).value| == 3 * n - 1
    ensures Viewed(bytes, -1, n).value[3 * i..3 * i + 2] ==
      ["0123456789ABCDEF"[bytes[i] / 16], "0123456789ABCDEF"[bytes[i] % 16]]
    ensures i < n - 1 ==> Viewed(bytes, -1, n).value[3 * i + 2] == ' '
  {
    PairCharacters(bytes[i]);
    var lines, last := Lines(bytes, -1, n - 1), Pair(bytes[n - 1]);
    ViewIs(bytes, -1, n);
    hide Pair, Lines, Viewed;
    if n == 1 {
      NoLines(bytes, -1);
    } else {
      OneLine(bytes, n - 1, if i < n - 1 then i else 0);
    }
    if i < n - 1 {
      PairThenSpace(lines, last, Pair(bytes[i]), 3 * i);
    }
  }

  lemma ViewIs(bytes: seq<Byte>, perLine: int, n: nat)
    requires 0 < n <= |bytes| && ViewArguments(bytes, perLine, n) && perLine != 0
    ensures Viewed(bytes, perLine, n) == Some(Lines(bytes, perLine, n - 1) + Pair(bytes[n - 1]))
  {
    hide Pair, Lines;
  }

  lemma PairThenSpace(lines: string, last: string, pair: string, at: nat)
    requires |pair| == 2 && at + 3 <= |lines| && lines[at..at + 3] == pair + " "
    ensures (lines + last)[at..at + 2] == pair && (lines + last)[at + 2] == ' '
  {
    assert lines[at..at + 3][..2] == pair && lines[at..at + 3][2] == ' ';
    assert (lines + last)[at..at + 2] == lines[at..at + 3][..2];
  }

  /** A view of `n` bytes in lines: every byte but the last is followed by a space, and one that starts a line follows a line
      break; the last byte follows neither, even where it would start a line. */
  lemma ViewInLines(bytes: seq<Byte>, perLine: int, n: nat, i: nat)
    requires i < n - 1 && n <= |bytes| && ViewArguments(bytes, perLine, n) && perLine != 0 && perLine != -1
    ensures Viewed(bytes, perLine, n).Some?
    ensures var k, text := if perLine < 0 then -perLine else perLine, Viewed(bytes, perLine, n).value;
      && |text| == 3 * (n - 1) + (n - 2) / k + 1 + 2
      && StandsAt(text, 3 * i + i / k + 1, bytes[i], i % k == 0)
      && text[|text| - 2..] == Pair(bytes[n - 1])
  {
    hide Pair, Lines, Viewed, Breaks, StandsAt;
    ViewIs(bytes, perLine, n);
    LinesAt(bytes, perLine, n - 1, i);
    LinesLength(bytes, perLine, n - 1);
    BreaksAre(Width(perLine), i);
    BreaksAre(Width(perLine), n - 2);
    var lines, last := Lines(bytes, perLine, n - 1), Pair(bytes[n - 1]);
    StillStands(lines, last, 3 * i + Breaks(Width(perLine), i + 1), bytes[i], i % Width(perLine) == 0);
    assert (lines + last)[|lines|..] == last;
  }

  lemma BreaksAre(k: nat, i: nat)
    requires k > 0
    ensures Breaks(k, i + 1) == i / k + 1
  {
  }
}
