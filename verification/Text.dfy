/** Splitting text at a separator, and numbers in text. */
module Text {
  import opened Packet

  // ----- splitting -----

  /** Where the first `c` is, or the length of the text. */
  function IndexOf(s: string, c: char): (i: nat)
    ensures i <= |s| && c !in s[..i] && (i < |s| ==> s[i] == c)
  {
    if s == "" || s[0] == c then 0 else 1 + IndexOf(s[1..], c)
  }

  /** `splitn(n, c)`: at most `n` pieces, the last of which takes all that is left. */
  function SplitN(s: string, n: nat, c: char): (pieces: seq<string>)
    requires n > 0
    ensures 0 < |pieces| <= n
    decreases n
  {
    var i := IndexOf(s, c);
    if n == 1 || i == |s| then [s] else [s[..i]] + SplitN(s[i + 1..], n - 1, c)
  }

  /** `split(c)` */
  function Split(s: string, c: char): (pieces: seq<string>)
    ensures |pieces| > 0
    decreases |s|
  {
    var i := IndexOf(s, c);
    if i == |s| then [s] else [s[..i]] + Split(s[i + 1..], c)
  }

  /** `before`, the separator, `after` */
  function Join(before: string, c: char, after: string): string {
    before + [c] + after
  }

  lemma {:induction false} IndexOfFirst(before: string, c: char, after: string)
    requires c !in before
    ensures IndexOf(Join(before, c, after), c) == |before|
    decreases |before|
  {
    var s := Join(before, c, after);
    if before != "" {
      assert s[1..] == Join(before[1..], c, after);
      IndexOfFirst(before[1..], c, after);
    }
  }

  lemma SplitFirst(before: string, c: char, after: string, n: nat)
    requires c !in before
    ensures n > 1 ==> SplitN(Join(before, c, after), n, c) == [before] + SplitN(after, n - 1, c)
    ensures Split(Join(before, c, after), c) == [before] + Split(after, c)
  {
    var s := Join(before, c, after);
    IndexOfFirst(before, c, after);
    assert s[..|before|] == before && s[|before| + 1..] == after;
  }

  lemma SplitNone(s: string, c: char, n: nat)
    requires c !in s
    ensures n > 0 ==> SplitN(s, n, c) == [s]
    ensures Split(s, c) == [s]
  {
  }

  lemma JoinAvoids(before: string, c: char, after: string, x: char)
    requires x !in before && x != c && x !in after
    ensures x !in Join(before, c, after)
  {
  }

  /** A piece in front of text that splits into `pieces`. */
  lemma OneMorePiece(before: string, c: char, after: string, n: nat, pieces: seq<string>)
    requires c !in before && n > 1
    ensures SplitN(after, n - 1, c) == pieces ==> SplitN(Join(before, c, after), n, c) == [before] + pieces
    ensures Split(after, c) == pieces ==> Split(Join(before, c, after), c) == [before] + pieces
  {
    SplitFirst(before, c, after, n);
  }

  lemma SplitNFour(s0: string, s1: string, s2: string, s3: string, c: char)
    requires c !in s0 && c !in s1 && c !in s2
    ensures SplitN(Join(s0, c, Join(s1, c, Join(s2, c, s3))), 4, c) == [s0] + ([s1] + ([s2] + [s3]))
  {
    assert SplitN(s3, 1, c) == [s3];
    hide Join, SplitN, Split;
    var t2 := Join(s2, c, s3);
    var t1 := Join(s1, c, t2);
    OneMorePiece(s2, c, s3, 2, [s3]);
    OneMorePiece(s1, c, t2, 3, [s2] + [s3]);
    OneMorePiece(s0, c, t1, 4, [s1] + ([s2] + [s3]));
  }

  lemma SplitFour(s0: string, s1: string, s2: string, s3: string, c: char)
    requires c !in s0 && c !in s1 && c !in s2 && c !in s3
    ensures Split(Join(s0, c, Join(s1, c, Join(s2, c, s3))), c) == [s0] + ([s1] + ([s2] + [s3]))
  {
    hide Join, SplitN, Split;
    var t2 := Join(s2, c, s3);
    var t1 := Join(s1, c, t2);
    SplitNone(s3, c, 1);
    OneMorePiece(s2, c, s3, 2, [s3]);
    OneMorePiece(s1, c, t2, 3, [s2] + [s3]);
    OneMorePiece(s0, c, t1, 4, [s1] + ([s2] + [s3]));
  }

  /** Pieces with the separator between them. */
  function JoinAll(pieces: seq<string>, c: char): string
    requires pieces != []
  {
    if |pieces| == 1 then pieces[0] else Join(pieces[0], c, JoinAll(pieces[1..], c))
  }

  /** All pieces but perhaps the last one are without the separator, and that one is unless the limit is reached. */
  predicate PiecesFor(pieces: seq<string>, n: nat, c: char) {
    && 0 < |pieces| <= n
    && (forall i | 0 <= i < |pieces| - 1 :: c !in pieces[i])
    && (|pieces| < n ==> c !in pieces[|pieces| - 1])
  }

  lemma PiecesForMore(piece: string, pieces: seq<string>, n: nat, c: char)
    requires PiecesFor(pieces, n, c) && c !in piece
    ensures PiecesFor([piece] + pieces, n + 1, c)
    ensures JoinAll([piece] + pieces, c) == Join(piece, c, JoinAll(pieces, c))
  {
    var all := [piece] + pieces;
    assert all[1..] == pieces;
    assert forall i | 0 < i < |pieces| :: all[i] == pieces[i - 1];
    assert all[|pieces|] == pieces[|pieces| - 1];
  }

  lemma {:induction false} SplitNParts(s: string, n: nat, c: char)
    requires n > 0
    ensures PiecesFor(SplitN(s, n, c), n, c) && JoinAll(SplitN(s, n, c), c) == s
    decreases n
  {
    hide IndexOf, JoinAll, PiecesFor, SplitN;
    var i := IndexOf(s, c);
    if n == 1 || i == |s| {
      UnsplitIsOnePiece(s, n, c);
    } else {
      SplitNUnfolds(s, n, c);
      SplitNParts(s[i + 1..], n - 1, c);
      PiecesForMore(s[..i], SplitN(s[i + 1..], n - 1, c), n - 1, c);
      assert s == Join(s[..i], c, s[i + 1..]);
    }
  }

  lemma UnsplitIsOnePiece(s: string, n: nat, c: char)
    requires n > 0 && (n == 1 || IndexOf(s, c) == |s|)
    ensures PiecesFor(SplitN(s, n, c), n, c) && JoinAll(SplitN(s, n, c), c) == s
  {
    assert s[..|s|] == s;
  }

  lemma SplitNUnfolds(s: string, n: nat, c: char)
    requires n > 1 && IndexOf(s, c) < |s|
    ensures SplitN(s, n, c) == [s[..IndexOf(s, c)]] + SplitN(s[IndexOf(s, c) + 1..], n - 1, c)
  {
    hide IndexOf;
  }

  lemma PiecesForRest(pieces: seq<string>, n: nat, c: char)
    requires PiecesFor(pieces, n, c) && |pieces| > 1
    ensures PiecesFor(pieces[1..], n - 1, c)
  {
    assert forall i | 0 <= i < |pieces| - 2 :: pieces[1..][i] == pieces[i + 1];
  }

  lemma JoinedFirst(pieces: seq<string>, n: nat, c: char)
    requires |pieces| > 1 && c !in pieces[0] && n > 1
    requires SplitN(JoinAll(pieces[1..], c), n - 1, c) == pieces[1..]
    ensures SplitN(JoinAll(pieces, c), n, c) == pieces
  {
    hide SplitN, Join;
    SplitFirst(pieces[0], c, JoinAll(pieces[1..], c), n);
    assert pieces == [pieces[0]] + pieces[1..];
  }

  lemma {:induction false} SplitNOfJoin(pieces: seq<string>, n: nat, c: char)
    requires PiecesFor(pieces, n, c)
    ensures SplitN(JoinAll(pieces, c), n, c) == pieces
    decreases n
  {
    hide SplitN, IndexOf;
    if |pieces| == 1 {
      OnePieceStays(pieces[0], n, c);
      assert pieces == [pieces[0]];
    } else {
      PiecesForRest(pieces, n, c);
      SplitNOfJoin(pieces[1..], n - 1, c);
      JoinedFirst(pieces, n, c);
    }
  }

  lemma OnePieceStays(s: string, n: nat, c: char)
    requires n > 0 && (n > 1 ==> c !in s)
    ensures SplitN(s, n, c) == [s]
  {
    hide IndexOf;
    if n > 1 {
      SplitNone(s, c, n);
    }
  }

  /** `splitn` gives those pieces that make up the text and have no separator in them but beyond the limit. */
  lemma SplitNExactly(s: string, n: nat, c: char, pieces: seq<string>)
    requires n > 0
    ensures SplitN(s, n, c) == pieces <==> PiecesFor(pieces, n, c) && JoinAll(pieces, c) == s
  {
    SplitNParts(s, n, c);
    if PiecesFor(pieces, n, c) {
      SplitNOfJoin(pieces, n, c);
    }
  }

  lemma {:induction false} SplitIsSplitN(s: string, n: nat, c: char)
    requires n > |s|
    ensures Split(s, c) == SplitN(s, n, c)
    decreases |s|
  {
    hide IndexOf;
    var i := IndexOf(s, c);
    if i < |s| {
      SplitIsSplitN(s[i + 1..], n - 1, c);
    }
  }

  lemma {:induction false} FewerPiecesThanCharacters(pieces: seq<string>, c: char)
    requires pieces != []
    ensures |pieces| <= |JoinAll(pieces, c)| + 1
  {
    if |pieces| > 1 {
      FewerPiecesThanCharacters(pieces[1..], c);
    }
  }

  /** `split` gives the pieces without the separator that make up the text, and no others do. */
  lemma SplitExactly(s: string, c: char, pieces: seq<string>)
    ensures Split(s, c) == pieces <==>
            pieces != [] && (forall piece | piece in pieces :: c !in piece) && JoinAll(pieces, c) == s
  {
    var n := |s| + 2;
    SplitIsSplitN(s, n, c);
    SplitNExactly(s, n, c, pieces);
    SplitNParts(s, n, c);
    FewerPiecesThanCharacters(SplitN(s, n, c), c);
    if pieces != [] && JoinAll(pieces, c) == s {
      FewerPiecesThanCharacters(pieces, c);
    }
  }

  function Count(s: string, c: char): nat {
    if s == "" then 0 else (if s[0] == c then 1 else 0) + Count(s[1..], c)
  }

  lemma {:induction false} CountFromFirst(s: string, c: char)
    ensures var i := IndexOf(s, c);
            Count(s, c) == if i == |s| then 0 else 1 + Count(s[i + 1..], c)
    decreases |s|
  {
    if s != "" && s[0] != c {
      CountFromFirst(s[1..], c);
      assert s[1..][IndexOf(s[1..], c)..] == s[IndexOf(s, c)..];
      if IndexOf(s, c) < |s| {
        assert s[1..][IndexOf(s[1..], c) + 1..] == s[IndexOf(s, c) + 1..];
      }
    }
  }

  /** There is one piece more than there are separators, up to the limit. */
  lemma {:induction false} PiecesByCount(s: string, n: nat, c: char)
    requires n > 0
    ensures |SplitN(s, n, c)| == if Count(s, c) < n then Count(s, c) + 1 else n
    decreases n
  {
    hide IndexOf, Count;
    var i := IndexOf(s, c);
    CountFromFirst(s, c);
    if n > 1 && i < |s| {
      PiecesByCount(s[i + 1..], n - 1, c);
    }
  }

  /** Every other character of the text is in one of the pieces. */
  lemma {:induction false} SplitKeepsCharacters(s: string, c: char, x: char)
    requires x in s && x != c
    ensures exists piece | piece in Split(s, c) :: x in piece
    decreases |s|
  {
    var i := IndexOf(s, c);
    if i == |s| {
      assert Split(s, c) == [s];
      assert s in [s];
    } else {
      var rest := s[i + 1..];
      assert Split(s, c) == [s[..i]] + Split(rest, c);
      if x in s[..i] {
        assert s[..i] in [s[..i]];
      } else {
        assert s == s[..i] + [s[i]] + rest;
        SplitKeepsCharacters(rest, c, x);
      }
    }
  }

  // ----- numbers -----

  function DigitValue(c: char): Option<nat> {
    if '0' <= c <= '9' then Some(c as int - '0' as int)
    else if 'a' <= c <= 'z' then Some(c as int - 'a' as int + 10)
    else if 'A' <= c <= 'Z' then Some(c as int - 'A' as int + 10)
    else None
  }

  predicate IsDigit(c: char, radix: nat) {
    DigitValue(c).Some? && DigitValue(c).value < radix
  }

  /** The number that a text of digits stands for; `None` when another character is in the way. */
  function DigitsValue(s: string, radix: nat): Option<nat> {
    if s == "" then
      Some(0)
    else
      var last := s[|s| - 1];
      var rest := DigitsValue(s[..|s| - 1], radix);
      if rest.Some? && IsDigit(last, radix) then Some(rest.value * radix + DigitValue(last).value) else None
  }

  /** `from_str_radix` of an unsigned type: one `+` may precede the digits, and the value has to fit. */
  function ParseUnsigned(s: string, radix: nat, bound: nat): Option<nat> {
    var digits := if s != "" && s[0] == '+' then s[1..] else s;
    if digits == "" then None
    else
      var value := DigitsValue(digits, radix);
      if value.Some? && value.value < bound then value else None
  }

  function DecimalDigit(d: nat): char
    requires d < 10
  {
    "0123456789"[d]
  }

  function PrintDecimal(n: nat): (s: string)
    ensures s != "" && forall c | c in s :: '0' <= c <= '9'
  {
    (if n < 10 then "" else PrintDecimal(n / 10)) + [DecimalDigit(n % 10)]
  }

  lemma DecimalDigitValue(d: nat)
    requires d < 10
    ensures IsDigit(DecimalDigit(d), 10) && DigitValue(DecimalDigit(d)) == Some(d)
  {
  }

  lemma {:induction false} DecimalRoundTrip(n: nat)
    ensures DigitsValue(PrintDecimal(n), 10) == Some(n)
    decreases n
  {
    var s := PrintDecimal(n);
    var rest := if n < 10 then "" else PrintDecimal(n / 10);
    assert s[..|s| - 1] == rest && s[|s| - 1] == DecimalDigit(n % 10);
    DecimalDigitValue(n % 10);
    if n >= 10 {
      DecimalRoundTrip(n / 10);
    }
  }

  lemma ParsePrintedDecimal(n: nat, bound: nat)
    requires n < bound
    ensures ParseUnsigned(PrintDecimal(n), 10, bound) == Some(n)
  {
    DecimalRoundTrip(n);
    assert PrintDecimal(n)[0] in PrintDecimal(n);
  }

  /** Without a needless zero in front, and as short as the number allows. */
  lemma DecimalForm(n: nat)
    requires n < 1000
    ensures |PrintDecimal(n)| == if n < 10 then 1 else if n < 100 then 2 else 3
    ensures n >= 10 ==> PrintDecimal(n)[0] != '0'
  {
  }

  function HexDigit(d: nat): char
    requires d < 16
  {
    "0123456789ABCDEF"[d]
  }

  /** `{:02X}` */
  function PrintHex(b: byte): string {
    [HexDigit(b / 16), HexDigit(b % 16)]
  }

  lemma HexDigitValue(d: nat)
    requires d < 16
    ensures IsDigit(HexDigit(d), 16) && DigitValue(HexDigit(d)) == Some(d) && HexDigit(d) != '+'
  {
  }

  lemma ParsePrintedHex(b: byte)
    ensures ParseUnsigned(PrintHex(b), 16, 0x100) == Some(b)
  {
    var high := [HexDigit(b / 16)];
    HexDigitValue(b / 16);
    HexDigitValue(b % 16);
    assert high[..0] == "";
    assert DigitsValue(high, 16) == Some(b / 16);
    assert PrintHex(b)[..1] == high;
  }

  lemma HexHasNo(b: byte, c: char)
    requires !('0' <= c <= '9') && !('A' <= c <= 'F')
    ensures c !in PrintHex(b)
  {
  }

  // ----- exactly which texts are numbers -----

  /** The ASCII character in its other case, when it is a letter. */
  function Lowered(c: char): char {
    if 'A' <= c <= 'Z' then (c as int + 32) as char else c
  }

  /** A hexadecimal digit is one of these 16 in either case, and stands for its place among them. */
  lemma HexDigitsExactly(c: char, d: nat)
    ensures IsDigit(c, 16) && DigitValue(c) == Some(d) <==> d < 16 && Lowered(c) == "0123456789abcdef"[d]
  {
  }

  lemma {:induction false} ValueZeroIsZeros(s: string)
    requires DigitsValue(s, 16) == Some(0)
    ensures forall i | 0 <= i < |s| :: s[i] == '0'
  {
    if s != "" {
      var last := s[|s| - 1];
      HexDigitsExactly(last, DigitValue(last).value);
      ValueZeroIsZeros(s[..|s| - 1]);
    }
  }

  /** A decimal digit is one of these ten, and stands for its place among them. */
  lemma DecimalDigitsExactly(c: char, d: nat)
    ensures IsDigit(c, 10) && DigitValue(c) == Some(d) <==> d < 10 && c == "0123456789"[d]
  {
  }

  function Power(radix: nat, n: nat): (r: nat)
    ensures radix > 0 ==> r > 0
  {
    if n == 0 then 1 else radix * Power(radix, n - 1)
  }

  function Zeros(n: nat): string {
    seq(n, _ => '0')
  }

  lemma {:induction false} ZerosAreNothing(n: nat)
    ensures DigitsValue(Zeros(n), 10) == Some(0)
  {
    if n > 0 {
      ZerosAreNothing(n - 1);
      assert Zeros(n)[..n - 1] == Zeros(n - 1);
    }
  }

  lemma {:induction false} PaddedReadsBack(zeros: nat, n: nat)
    ensures DigitsValue(Zeros(zeros) + PrintDecimal(n), 10) == Some(n)
    decreases n
  {
    hide IsDigit, DigitValue, Zeros;
    DecimalDigitValue(n % 10);
    if n < 10 {
      ZerosAreNothing(zeros);
      OneMoreDigit(Zeros(zeros), n % 10);
    } else {
      PaddedReadsBack(zeros, n / 10);
      OneMoreDigit(Zeros(zeros) + PrintDecimal(n / 10), n % 10);
      assert PrintDecimal(n) == PrintDecimal(n / 10) + [DecimalDigit(n % 10)];
      assert Zeros(zeros) + PrintDecimal(n) == Zeros(zeros) + PrintDecimal(n / 10) + [DecimalDigit(n % 10)];
    }
  }

  lemma OneMoreDigit(s: string, d: nat)
    requires d < 10 && DigitsValue(s, 10).Some?
    ensures DigitsValue(s + [DecimalDigit(d)], 10) == Some(DigitsValue(s, 10).value * 10 + d)
  {
    DecimalDigitValue(d);
    assert (s + [DecimalDigit(d)])[..|s|] == s;
  }

  /** How many zeros stand in front of the shortest form of the number that the digits stand for. */
  lemma {:induction false} DigitsArePadded(s: string) returns (zeros: nat)
    requires s != "" && DigitsValue(s, 10).Some?
    ensures s == Zeros(zeros) + PrintDecimal(DigitsValue(s, 10).value)
  {
    hide DigitValue, PrintDecimal, Zeros;
    var rest, last := s[..|s| - 1], s[|s| - 1];
    assert s == rest + [last];
    var d := DigitValue(last).value;
    DecimalDigitsExactly(last, d);
    if rest == "" {
      zeros := 0;
      DigitAlone(d);
    } else {
      zeros := DigitsArePadded(rest);
      zeros := DigitBehind(rest, zeros, DigitsValue(rest, 10).value, d);
    }
  }

  lemma DigitAlone(d: nat)
    requires d < 10
    ensures Zeros(0) + PrintDecimal(d) == ["0123456789"[d]]
  {
    assert Zeros(0) == "" && "" + [DecimalDigit(d)] == [DecimalDigit(d)];
  }

  lemma DigitBehind(rest: string, zeros: nat, tens: nat, d: nat) returns (more: nat)
    requires d < 10 && rest == Zeros(zeros) + PrintDecimal(tens)
    ensures rest + ["0123456789"[d]] == Zeros(more) + PrintDecimal(tens * 10 + d)
  {
    if tens == 0 {
      more := zeros + 1;
      assert PrintDecimal(0) == "0";
      assert rest == Zeros(more);
    } else {
      more := zeros;
      assert (tens * 10 + d) / 10 == tens && (tens * 10 + d) % 10 == d;
    }
  }

  /** `s` is this number in decimal, perhaps with a plus, perhaps with zeros in front. */
  ghost predicate IsDecimal(s: string, n: nat) {
    exists zeros: nat :: s == Zeros(zeros) + PrintDecimal(n) || s == "+" + (Zeros(zeros) + PrintDecimal(n))
  }

  /** The digits of a text of a number, without the plus. */
  function WithoutPlus(s: string): string {
    if s != "" && s[0] == '+' then s[1..] else s
  }

  lemma DecimalIsRead(s: string, zeros: nat, n: nat)
    requires s == Zeros(zeros) + PrintDecimal(n) || s == "+" + (Zeros(zeros) + PrintDecimal(n))
    ensures WithoutPlus(s) == Zeros(zeros) + PrintDecimal(n)
    ensures WithoutPlus(s) != "" && DigitsValue(WithoutPlus(s), 10) == Some(n)
  {
    hide DigitsValue, PrintDecimal;
    PaddedReadsBack(zeros, n);
    var padded := Zeros(zeros) + PrintDecimal(n);
    assert padded[0] == '0' || padded[0] in PrintDecimal(n);
  }

  lemma ReadIsDecimal(s: string)
    requires WithoutPlus(s) != "" && DigitsValue(WithoutPlus(s), 10).Some?
    ensures IsDecimal(s, DigitsValue(WithoutPlus(s), 10).value)
  {
    hide DigitsValue, PrintDecimal, Zeros;
    var zeros := DigitsArePadded(WithoutPlus(s));
    assert s == WithoutPlus(s) || s == "+" + WithoutPlus(s);
  }

  /** Exactly the texts of numbers below the bound are read, and each as its number. */
  lemma ParsedDecimalExactly(s: string, bound: nat, n: nat)
    ensures ParseUnsigned(s, 10, bound) == Some(n) <==> n < bound && IsDecimal(s, n)
  {
    hide DigitsValue, PrintDecimal, Zeros;
    if WithoutPlus(s) != "" && DigitsValue(WithoutPlus(s), 10).Some? {
      ReadIsDecimal(s);
    }
    if zeros: nat :| s == Zeros(zeros) + PrintDecimal(n) || s == "+" + (Zeros(zeros) + PrintDecimal(n)) {
      DecimalIsRead(s, zeros, n);
    }
  }

  /** `s` is this byte in hexadecimal: at least one digit, in either case, perhaps zeros and a plus in front. */
  predicate IsHexByte(s: string, b: byte) {
    var digits := WithoutPlus(s);
    && digits != "" && (|digits| == 1 ==> b < 16)
    && Lowered(digits[|digits| - 1]) == "0123456789abcdef"[b % 16]
    && (|digits| > 1 ==> Lowered(digits[|digits| - 2]) == "0123456789abcdef"[b / 16])
    && forall i | 0 <= i < |digits| - 2 :: digits[i] == '0'
  }

  lemma NoDigits()
    ensures DigitsValue("", 16) == Some(0)
  {
  }

  lemma DigitsUnfold(s: string)
    requires s != ""
    ensures var rest, last := DigitsValue(s[..|s| - 1], 16), s[|s| - 1];
            DigitsValue(s, 16)
            == if rest.Some? && IsDigit(last, 16) then Some(rest.value * 16 + DigitValue(last).value) else None
  {
    hide IsDigit, DigitValue;
  }

  /** What digits stand for, by the last two of them and what is in front. */
  lemma LastTwoDigits(s: string)
    requires s != ""
    ensures |s| == 1 ==>
              DigitsValue(s, 16) == if IsDigit(s[0], 16) then Some(DigitValue(s[0]).value) else None
    ensures |s| > 1 ==>
              var rest, high, low := DigitsValue(s[..|s| - 2], 16), s[|s| - 2], s[|s| - 1];
              DigitsValue(s, 16)
              == if rest.Some? && IsDigit(high, 16) && IsDigit(low, 16)
                 then Some((rest.value * 16 + DigitValue(high).value) * 16 + DigitValue(low).value) else None
  {
    hide DigitsValue, IsDigit, DigitValue;
    NoDigits();
    DigitsUnfold(s);
    if |s| == 1 {
      assert s[..0] == "";
    } else {
      DigitsUnfold(s[..|s| - 1]);
      assert s[..|s| - 1][..|s| - 2] == s[..|s| - 2];
    }
  }

  lemma {:induction false} ZerosHaveValueZero(s: string)
    requires forall i | 0 <= i < |s| :: s[i] == '0'
    ensures DigitsValue(s, 16) == Some(0)
  {
    if s != "" {
      ZerosHaveValueZero(s[..|s| - 1]);
    }
  }

  /** Exactly the texts of bytes are read, and each as its byte. */
  lemma ParsedHexExactly(s: string, b: byte)
    ensures ParseUnsigned(s, 16, 0x100) == Some(b) <==> IsHexByte(s, b)
  {
    hide DigitsValue, DigitValue, Lowered;
    var t := WithoutPlus(s);
    if t != "" {
      LastTwoDigits(t);
      HexDigitsExactly(t[|t| - 1], b % 16);
      if |t| == 1 {
        HexDigitsExactly(t[0], b);
      } else {
        HexDigitsExactly(t[|t| - 2], b / 16);
        LeadingZeros(t, b);
      }
    }
  }

  lemma LeadingZeros(t: string, b: byte)
    requires |t| > 1
    ensures DigitsValue(t, 16) == Some(b) <==>
              && (forall i | 0 <= i < |t| - 2 :: t[i] == '0')
              && IsDigit(t[|t| - 2], 16) && DigitValue(t[|t| - 2]) == Some(b / 16)
              && IsDigit(t[|t| - 1], 16) && DigitValue(t[|t| - 1]) == Some(b % 16)
  {
    hide DigitsValue, DigitValue;
    LastTwoDigits(t);
    var front := t[..|t| - 2];
    if DigitsValue(front, 16) == Some(0) {
      ValueZeroIsZeros(front);
      assert forall i | 0 <= i < |t| - 2 :: front[i] == t[i];
    }
    if forall i | 0 <= i < |t| - 2 :: t[i] == '0' {
      ZerosHaveValueZero(front);
    }
  }

  /** A byte is printed as two of these digits. */
  lemma HexFormExactly(b: byte)
    ensures |PrintHex(b)| == 2
    ensures PrintHex(b)[0] == "0123456789ABCDEF"[b / 16] && PrintHex(b)[1] == "0123456789ABCDEF"[b % 16]
  {
  }

  /** A number is printed without a needless zero, each digit being the one that its place calls for. */
  lemma {:induction false} DecimalFormExactly(n: nat, i: nat)
    requires i < |PrintDecimal(n)|
    ensures PrintDecimal(n)[|PrintDecimal(n)| - 1 - i] == "0123456789"[(n / Power(10, i)) % 10]
    ensures n > 0 ==> PrintDecimal(n)[0] != '0'
    decreases n
  {
    if i == 0 {
      assert n / 1 == n;
      if n >= 10 {
        DecimalFormExactly(n / 10, 0);
      }
    } else {
      DecimalFormExactly(n / 10, i - 1);
      DividedTwice(n, Power(10, i - 1));
    }
  }

  lemma {:induction false} OneMoreTimes(p: nat, a: nat, b: nat)
    ensures a < b ==> p * a + p <= p * b
  {
    if a < b {
      OneMoreTimes(p, a, b - 1);
      assert p * b == p * (b - 1) + p;
    }
  }

  lemma QuotientIs(n: nat, p: nat, q: nat, r: nat)
    requires r < p && n == p * q + r
    ensures n / p == q
  {
    var k := n / p;
    assert p * k <= n < p * k + p;
    OneMoreTimes(p, k, q);
    OneMoreTimes(p, q, k);
  }

  lemma DividedTwice(n: nat, p: nat)
    requires p > 0
    ensures (n / 10) / p == n / (10 * p)
  {
    var q, r := (n / 10) / p, (n / 10) % p;
    var x := p * q;
    assert n / 10 == x + r;
    assert n == 10 * x + (10 * r + n % 10);
    assert 10 * x == (10 * p) * q;
    QuotientIs(n, 10 * p, q, 10 * r + n % 10);
  }
}
