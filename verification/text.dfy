/** The text handling the report needs: splitting a diff into lines the way
    Swift's `split(separator: "\n")` does, joining pieces back with a
    separator, re-indenting the continuation lines of a diff, and the decimal
    text of a count.

    Swift splits a `String` by `Character`s (extended grapheme clusters). A
    line feed is a Character of its own except right after a carriage return,
    where the two form the single Character "\r\n"; that Character is not
    equal to "\n", so a CR LF never separates two pieces. A string here is the
    sequence of its Unicode scalars, and `IsBreak` picks out exactly the line
    feeds that are Characters of their own. */
module Text {

  /** The indent of every report line under a header and of every
      continuation line of a diff: four spaces. */
  const DifferenceLineIndent: string := "    "

  /** Position `i` of `s` holds a line feed that is a Character of its own. */
  predicate IsBreak(s: string, i: nat)
    requires i < |s|
  {
    s[i] == '\n' && (i == 0 || s[i - 1] != '\r')
  }

  predicate NoBreak(s: string) {
    forall i :: 0 <= i < |s| ==> !IsBreak(s, i)
  }

  predicate EndsWithCR(s: string) {
    |s| > 0 && s[|s| - 1] == '\r'
  }

  /** Pieces that come back unchanged from joining with "\n" and splitting
      again: none holds a break, and none but the last ends in a carriage
      return, which would fuse with the joining line feed. */
  predicate Joinable(pieces: seq<string>) {
    && (forall i :: 0 <= i < |pieces| ==> NoBreak(pieces[i]))
    && (forall i :: 0 <= i < |pieces| - 1 ==> !EndsWithCR(pieces[i]))
  }

  predicate NoEmpty(pieces: seq<string>) {
    forall i :: 0 <= i < |pieces| ==> |pieces[i]| > 0
  }

  /** The first break of `s` at or after `i`, or `|s|` when there is none. */
  function NextBreak(s: string, i: nat): (n: nat)
    requires i <= |s|
    ensures i <= n <= |s|
    ensures n < |s| ==> IsBreak(s, n)
    ensures forall j :: i <= j < n ==> !IsBreak(s, j)
    decreases |s| - i
  {
    if i == |s| then |s| else if IsBreak(s, i) then i else NextBreak(s, i + 1)
  }

  /** `s.split(separator: "\n", omittingEmptySubsequences: false)`: the
      lines of `s` between its breaks, empty ones included. */
  function LinesOf(s: string): (lines: seq<string>)
    ensures |lines| > 0 && Joinable(lines)
    decreases |s|
  {
    var n := NextBreak(s, 0);
    PrefixNoBreak(s, n);
    if n == |s| then
      JoinableCons(s, []);
      [s]
    else
      var rest := LinesOf(s[n + 1..]);
      PieceBeforeBreak(s, n);
      JoinableCons(s[..n], rest);
      [s[..n]] + rest
  }

  /** `s.split(separator: "\n")`: the lines of `s` with the empty ones
      omitted (Swift's default). */
  function Split(s: string): (pieces: seq<string>)
    ensures Joinable(pieces) && NoEmpty(pieces)
    decreases |s|
  {
    if |s| == 0 then []
    else if s[0] == '\n' then Split(s[1..])
    else
      var n := NextBreak(s, 0);
      var rest := Split(s[n..]);
      PrefixNoBreak(s, n);
      assert n == |s| ==> s[n..] == [] && rest == [];
      if n < |s| then
        PieceBeforeBreak(s, n);
        JoinableCons(s[..n], rest);
        [s[..n]] + rest
      else
        JoinableCons(s[..n], rest);
        [s[..n]] + rest
  }

  function TotalLength(pieces: seq<string>): nat
  {
    if |pieces| == 0 then 0 else |pieces[0]| + TotalLength(pieces[1..])
  }

  /** `pieces.joined(separator: sep)`. */
  function Join(pieces: seq<string>, sep: string): (r: string)
    ensures |pieces| == 0 ==> |r| == 0
    ensures |pieces| > 0 ==> |r| + |sep| == TotalLength(pieces) + |pieces| * |sep|
  {
    if |pieces| == 0 then []
    else if |pieces| == 1 then pieces[0]
    else pieces[0] + sep + Join(pieces[1..], sep)
  }

  /** The lines of a diff with the empty ones dropped. */
  function NonEmpty(pieces: seq<string>): seq<string>
  {
    if |pieces| == 0 then []
    else (if |pieces[0]| == 0 then [] else [pieces[0]]) + NonEmpty(pieces[1..])
  }

  /** Reference re-indentation: every break becomes a line feed followed by
      the indent; every other scalar, a CR LF pair included, stays. */
  function IndentBreaks(s: string): string
  {
    if |s| == 0 then []
    else IndentBreaks(s[..|s| - 1]) + (if IsBreak(s, |s| - 1) then "\n" + DifferenceLineIndent else [s[|s| - 1]])
  }

  /** The diff text as the report prints it: split into lines and rejoined
      with a line feed followed by the indent. Read as text, it is the diff
      with its empty lines dropped and every remaining break indented; on a
      diff without empty lines it only indents. */
  function IndentDifference(text: string): (r: string)
    ensures r == IndentBreaks(Join(NonEmpty(LinesOf(text)), "\n"))
    ensures NoEmpty(LinesOf(text)) ==> r == IndentBreaks(text)
  {
    JoinIndented(Split(text));
    SplitDropsEmptyLines(text);
    JoinSplit(text);
    Join(Split(text), "\n" + DifferenceLineIndent)
  }

  lemma PrefixNoBreak(s: string, n: nat)
    requires n <= |s|
    requires forall j :: 0 <= j < n ==> !IsBreak(s, j)
    ensures NoBreak(s[..n])
    ensures n == |s| ==> NoBreak(s)
  {
    forall j | 0 <= j < n
      ensures !IsBreak(s[..n], j)
    {
      assert s[..n][j] == s[j];
      if j > 0 {
        assert s[..n][j - 1] == s[j - 1];
      }
      assert !IsBreak(s, j);
    }
    assert s[..|s|] == s;
  }

  lemma PieceBeforeBreak(s: string, n: nat)
    requires n < |s| && IsBreak(s, n)
    ensures !EndsWithCR(s[..n])
  {
    if n > 0 {
      assert s[..n][n - 1] == s[n - 1];
    }
  }

  lemma JoinableCons(p: string, rest: seq<string>)
    requires NoBreak(p) && Joinable(rest)
    requires |rest| > 0 ==> !EndsWithCR(p)
    ensures Joinable([p] + rest)
  {
    var ps := [p] + rest;
    forall i | 0 <= i < |ps|
      ensures NoBreak(ps[i])
    {
      if i > 0 {
        assert ps[i] == rest[i - 1];
      }
    }
    forall i | 0 <= i < |ps| - 1
      ensures !EndsWithCR(ps[i])
    {
      if i > 0 {
        assert ps[i] == rest[i - 1];
      }
    }
  }

  lemma JoinableTail(pieces: seq<string>)
    requires |pieces| > 0 && Joinable(pieces)
    ensures Joinable(pieces[1..])
  {
    var t := pieces[1..];
    forall i | 0 <= i < |t|
      ensures NoBreak(t[i])
    {
      assert t[i] == pieces[i + 1];
    }
    forall i | 0 <= i < |t| - 1
      ensures !EndsWithCR(t[i])
    {
      assert t[i] == pieces[i + 1];
    }
  }

  lemma NextBreakAt(s: string, i: nat, n: nat)
    requires i <= n < |s| && IsBreak(s, n)
    requires forall j :: i <= j < n ==> !IsBreak(s, j)
    ensures NextBreak(s, i) == n
  {
  }

  lemma JoinCons(p: string, rest: seq<string>, sep: string)
    requires |rest| > 0
    ensures Join([p] + rest, sep) == p + sep + Join(rest, sep)
  {
    assert ([p] + rest)[1..] == rest;
  }

  /** Joining the lines of any text with a line feed gives the text back. */
  lemma {:induction false} JoinLines(s: string)
    ensures Join(LinesOf(s), "\n") == s
    decreases |s|
  {
    var n := NextBreak(s, 0);
    if n < |s| {
      var t := s[n + 1..];
      JoinLines(t);
      JoinCons(s[..n], LinesOf(t), "\n");
      assert s == s[..n] + "\n" + t;
    }
  }

  /** Splitting into lines undoes joining with a line feed, exactly on
      joinable pieces. */
  lemma {:induction false} LinesJoin(pieces: seq<string>)
    requires |pieces| > 0 && Joinable(pieces)
    ensures LinesOf(Join(pieces, "\n")) == pieces
    decreases |pieces|
  {
    var p := pieces[0];
    if |pieces| == 1 {
      assert NoBreak(p);
      assert p[..|p|] == p;
    } else {
      var t := Join(pieces[1..], "\n");
      var s := p + "\n" + t;
      forall j | 0 <= j < |p|
        ensures !IsBreak(s, j)
      {
        assert s[j] == p[j];
        if j > 0 {
          assert s[j - 1] == p[j - 1];
        }
        assert !IsBreak(p, j);
      }
      assert !EndsWithCR(p);
      assert IsBreak(s, |p|) by {
        if |p| > 0 {
          assert s[|p| - 1] == p[|p| - 1];
        }
      }
      NextBreakAt(s, 0, |p|);
      assert s[..|p|] == p;
      assert s[|p| + 1..] == t;
      JoinableTail(pieces);
      LinesJoin(pieces[1..]);
      assert [p] + pieces[1..] == pieces;
    }
  }

  /** Swift's default split is the full split with the empty lines dropped. */
  lemma {:induction false} SplitDropsEmptyLines(s: string)
    ensures Split(s) == NonEmpty(LinesOf(s))
    decreases |s|
  {
    if |s| == 0 {
      assert LinesOf(s) == [s];
    } else if s[0] == '\n' {
      assert IsBreak(s, 0);
      assert s[..0] == [];
      SplitDropsEmptyLines(s[1..]);
      assert LinesOf(s) == [[]] + LinesOf(s[1..]);
      assert ([[]] + LinesOf(s[1..]))[1..] == LinesOf(s[1..]);
    } else {
      var n := NextBreak(s, 0);
      assert n > 0;
      if n == |s| {
        assert s[n..] == [];
        assert s[..n] == s;
        assert NonEmpty([s]) == [s] + NonEmpty([]);
      } else {
        var t := s[n + 1..];
        SplitDropsEmptyLines(t);
        var u := s[n..];
        assert |u| > 0 && u[0] == '\n';
        assert u[1..] == t;
        assert Split(u) == Split(t);
        assert LinesOf(s) == [s[..n]] + LinesOf(t);
        assert ([s[..n]] + LinesOf(t))[1..] == LinesOf(t);
      }
    }
  }

  lemma {:induction false} NonEmptyOfNoEmpty(pieces: seq<string>)
    requires NoEmpty(pieces)
    ensures NonEmpty(pieces) == pieces
    decreases |pieces|
  {
    if |pieces| > 0 {
      NonEmptyOfNoEmpty(pieces[1..]);
      assert [pieces[0]] + pieces[1..] == pieces;
    }
  }

  /** Splitting undoes joining with a line feed, when no piece is empty and
      the pieces are joinable. */
  lemma SplitJoin(pieces: seq<string>)
    requires Joinable(pieces) && NoEmpty(pieces)
    ensures Split(Join(pieces, "\n")) == pieces
  {
    if |pieces| > 0 {
      SplitDropsEmptyLines(Join(pieces, "\n"));
      LinesJoin(pieces);
      NonEmptyOfNoEmpty(pieces);
    }
  }

  /** Joining with a line feed undoes splitting, on text without empty
      lines. */
  lemma JoinSplit(s: string)
    ensures NoEmpty(LinesOf(s)) ==> Join(Split(s), "\n") == s
  {
    if NoEmpty(LinesOf(s)) {
      SplitDropsEmptyLines(s);
      NonEmptyOfNoEmpty(LinesOf(s));
      JoinLines(s);
    }
  }

  /** Re-indenting distributes over concatenation, unless the cut separates
      a carriage return from the line feed after it. */
  lemma {:induction false} IndentBreaksAppend(a: string, b: string)
    requires !(EndsWithCR(a) && |b| > 0 && b[0] == '\n')
    ensures IndentBreaks(a + b) == IndentBreaks(a) + IndentBreaks(b)
    decreases |b|
  {
    if |b| == 0 {
      assert a + b == a;
    } else {
      var b' := b[..|b| - 1];
      IndentBreaksAppend(a, b');
      var ab := a + b;
      assert ab[..|ab| - 1] == a + b';
      assert ab[|ab| - 1] == b[|b| - 1];
      if |b| > 1 {
        assert ab[|ab| - 2] == b[|b| - 2];
      } else if |a| > 0 {
        assert ab[|ab| - 2] == a[|a| - 1];
      }
      assert IsBreak(ab, |ab| - 1) == IsBreak(b, |b| - 1);
    }
  }

  lemma {:induction false} IndentBreaksOfNoBreak(p: string)
    requires NoBreak(p)
    ensures IndentBreaks(p) == p
    decreases |p|
  {
    if |p| > 0 {
      var q := p[..|p| - 1];
      PrefixNoBreak(p, |p| - 1);
      IndentBreaksOfNoBreak(q);
      assert q + [p[|p| - 1]] == p;
    }
  }

  /** Joining joinable pieces with a line feed and the indent is the same as
      joining them with a bare line feed and then indenting every break. */
  lemma {:induction false} JoinIndented(pieces: seq<string>)
    requires Joinable(pieces)
    ensures Join(pieces, "\n" + DifferenceLineIndent) == IndentBreaks(Join(pieces, "\n"))
    decreases |pieces|
  {
    if |pieces| == 1 {
      IndentBreaksOfNoBreak(pieces[0]);
    } else if |pieces| > 1 {
      JoinableTail(pieces);
      JoinIndented(pieces[1..]);
      IndentAfterPiece(pieces[0], Join(pieces[1..], "\n"));
    }
  }

  lemma IndentAfterPiece(p: string, t: string)
    requires NoBreak(p) && !EndsWithCR(p)
    ensures IndentBreaks(p + "\n" + t) == p + ("\n" + DifferenceLineIndent) + IndentBreaks(t)
  {
    assert p + "\n" + t == p + ("\n" + t);
    IndentBreaksAppend(p, "\n" + t);
    IndentBreaksAppend("\n", t);
    IndentBreaksOfNoBreak(p);
    assert IndentBreaks("\n") == "\n" + DifferenceLineIndent by {
      assert "\n"[..0] == [];
    }
  }

  /** A CR LF inside a diff is one Character, not a line break: the diff
      stays one piece and is printed unchanged. */
  lemma CrLfStaysWhole()
    ensures Split("a\r\nb") == ["a\r\nb"]
    ensures IndentDifference("a\r\nb") == "a\r\nb"
  {
    var s := "a\r\nb";
    assert !IsBreak(s, 0) && !IsBreak(s, 1) && !IsBreak(s, 2) && !IsBreak(s, 3);
    assert NoBreak(s);
    assert s[..|s|] == s;
    assert s[|s|..] == [];
    assert LinesOf(s) == [s];
    IndentBreaksOfNoBreak(s);
  }

  /** An empty line in a diff is dropped: the lines around it end up one
      indented break apart. */
  lemma EmptyLineDropped()
    ensures Split("a\n\nb") == ["a", "b"]
    ensures IndentDifference("a\n\nb") == "a\n    b"
  {
    SplitWithEmptyLine();
    JoinCons("a", ["b"], "\n" + DifferenceLineIndent);
    assert ["a"] + ["b"] == ["a", "b"];
  }

  lemma SplitWithEmptyLine()
    ensures Split("a\n\nb") == ["a", "b"]
  {
    LinesWithEmptyLine();
    SplitDropsEmptyLines("a\n\nb");
    NonEmptyDropsEmptyLine();
  }

  lemma LinesWithEmptyLine()
    ensures LinesOf("a\n\nb") == ["a", "", "b"]
  {
    var lines := ["a", "", "b"];
    JoinableWithEmptyLine();
    JoinWithEmptyLine();
    LinesJoin(lines);
  }

  lemma JoinableWithEmptyLine()
    ensures Joinable(["a", "", "b"])
  {
    assert NoBreak("a") && NoBreak("") && NoBreak("b");
  }

  lemma JoinWithEmptyLine()
    ensures Join(["a", "", "b"], "\n") == "a\n\nb"
  {
    JoinCons("a", ["", "b"], "\n");
    JoinCons("", ["b"], "\n");
    assert ["a"] + ["", "b"] == ["a", "", "b"];
    assert [""] + ["b"] == ["", "b"];
  }

  lemma NonEmptyDropsEmptyLine()
    ensures NonEmpty(["a", "", "b"]) == ["a", "b"]
  {
    var lines := ["a", "", "b"];
    assert lines[1..] == ["", "b"];
    assert lines[1..][1..] == ["b"];
    assert NonEmpty(["b"]) == ["b"] + NonEmpty([]);
  }

  // Decimal text of a count, as Swift's string interpolation writes an integer.

  predicate IsDigit(c: char) {
    '0' <= c <= '9'
  }

  predicate AllDigits(s: string) {
    forall i :: 0 <= i < |s| ==> IsDigit(s[i])
  }

  function DigitChar(d: nat): (c: char)
    requires d < 10
    ensures IsDigit(c) && c as int - '0' as int == d
  {
    ('0' as int + d) as char
  }

  /** Decimal digits of `n`, most significant first, without leading zeros. */
  function NatToDecimal(n: nat): (s: string)
    ensures |s| > 0 && AllDigits(s)
    ensures s[0] == '0' ==> n == 0
  {
    if n < 10 then [DigitChar(n)] else NatToDecimal(n / 10) + [DigitChar(n % 10)]
  }

  /** Value of a string of decimal digits. */
  function DecimalValue(s: string): nat
    requires AllDigits(s)
  {
    if |s| == 0 then 0
    else DecimalValue(s[..|s| - 1]) * 10 + (s[|s| - 1] as int - '0' as int)
  }

  /** The printed count reads back as the count. */
  lemma {:induction false} DecimalRoundTrip(n: nat)
    ensures DecimalValue(NatToDecimal(n)) == n
  {
    if n >= 10 {
      DecimalRoundTrip(n / 10);
      var s := NatToDecimal(n);
      assert s[..|s| - 1] == NatToDecimal(n / 10);
    }
  }

  /** The longest prefix of `s` made of decimal digits: what a reader of the
      log takes for a number. */
  function LeadingDigits(s: string): (d: string)
    ensures |d| <= |s| && d == s[..|d|] && AllDigits(d)
    ensures |d| < |s| ==> !IsDigit(s[|d|])
  {
    if |s| == 0 || !IsDigit(s[0]) then [] else [s[0]] + LeadingDigits(s[1..])
  }

  /** Digits followed by a non-digit read back as exactly those digits. */
  lemma {:induction false} LeadingDigitsOf(d: string, rest: string)
    requires AllDigits(d) && |rest| > 0 && !IsDigit(rest[0])
    ensures LeadingDigits(d + rest) == d
    decreases |d|
  {
    if |d| == 0 {
      assert d + rest == rest;
    } else {
      assert (d + rest)[0] == d[0];
      assert (d + rest)[1..] == d[1..] + rest;
      LeadingDigitsOf(d[1..], rest);
      assert [d[0]] + d[1..] == d;
    }
  }
}
