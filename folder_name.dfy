/**
 * The album-folder name resolver: how a Photos export folder name such as
 * "Area - Street, 2021年3月9日" becomes "2021-03-09". The two regular
 * expressions are modelled by what they match, `int.Parse` by its accepting
 * cases, and the `{0:0000}` / `{0:00}` format items by zero padding.
 */
module FolderName {
  import opened Wrappers
  import opened Text

  /** What `\d` matches here: an ASCII decimal digit. */
  predicate IsDigit(c: char) {
    '0' <= c <= '9'
  }

  predicate AllDigits(s: string) {
    forall i :: 0 <= i < |s| ==> IsDigit(s[i])
  }

  /** The end of the longest run of digits that starts at `i`: what a greedy `\d*` consumes. */
  function DigitRunEnd(s: string, i: nat): (e: nat)
    requires i <= |s|
    ensures i <= e <= |s|
    ensures forall k :: i <= k < e ==> IsDigit(s[k])
    ensures e == |s| || !IsDigit(s[e])
    decreases |s| - i
  {
    if i == |s| || !IsDigit(s[i]) then i else DigitRunEnd(s, i + 1)
  }

  // ---------------------------------------------------------------------------
  // The folder-name pattern ^(?<area>.* - )?(?<street>.*, )?(?<date>.*)
  // ---------------------------------------------------------------------------

  /** `.` does not match '\n', so the pattern only ever sees the name up to its first line feed. */
  function FirstLine(name: string): (line: string)
    ensures '\n' !in line
    ensures line == name || (|line| < |name| && name[..|line|] == line && name[|line|] == '\n')
  {
    var i := IndexOfChar(name, '\n', 0);
    if i < 0 then name else name[..i]
  }

  /** The three named groups of the folder-name pattern; an unmatched optional group is empty. */
  datatype NameParts = NameParts(area: string, street: string, date: string)

  /**
   * The one match of the folder-name pattern. Each optional group is tried first
   * and its `.*` backtracks from the end of the line, and `date` always matches,
   * so `area` runs to the end of the last " - " of the line, `street` to the end
   * of the last ", " after that, and `date` takes the rest of the line.
   */
  function SplitName(name: string): (p: NameParts)
    ensures p.area + p.street + p.date == FirstLine(name)
  {
    var line := FirstLine(name);
    var a := LastEndOf(line, " - ", |line|);
    var rest := line[a..];
    var b := LastEndOf(rest, ", ", |rest|);
    assert line[..a] + rest[..b] + rest[b..] == line;
    NameParts(line[..a], rest[..b], rest[b..])
  }

  /**
   * The split is the greedy one: `area` is empty or ends in " - " and no " - "
   * ends further into the line; `street` is empty or ends in ", " and no ", "
   * ends further into what follows `area`.
   */
  lemma SplitNameGreedy(name: string)
    ensures var p, line := SplitName(name), FirstLine(name);
      && (p.area == [] || EndsAt(p.area, " - ", |p.area|))
      && (forall e :: |p.area| < e <= |line| ==> !EndsAt(line, " - ", e))
      && (p.street == [] || EndsAt(p.street, ", ", |p.street|))
      && (forall e :: |p.street| < e <= |p.street + p.date| ==> !EndsAt(p.street + p.date, ", ", e))
  {
    var line := FirstLine(name);
    var a := LastEndOf(line, " - ", |line|);
    var rest := line[a..];
    var b := LastEndOf(rest, ", ", |rest|);
    assert a == 0 || line[..a][a - 3..a] == line[a - 3..a];
    assert b == 0 || rest[..b][b - 2..b] == rest[b - 2..b];
    assert rest[..b] + rest[b..] == rest;
  }

  // ---------------------------------------------------------------------------
  // The date pattern (?<year>\d*)年(?<month>\d*)月(?<date>\d*)日
  // ---------------------------------------------------------------------------

  /** A match of the date pattern: where it starts and its three digit groups. */
  datatype DateMatch = DateMatch(start: nat, year: string, month: string, day: string)

  /**
   * The match of the date pattern that starts at `p`, if there is one. Each
   * `\d*` takes the longest digit run: giving back a digit would leave that
   * digit where the pattern needs 年, 月 or 日, so backtracking never helps.
   */
  function MatchAt(s: string, p: nat): (r: Option<DateMatch>)
    requires p <= |s|
    ensures r.Some? ==> r.value.start == p
    ensures r.Some? ==> AllDigits(r.value.year) && AllDigits(r.value.month) && AllDigits(r.value.day)
  {
    var y := DigitRunEnd(s, p);
    if y < |s| && s[y] == '年' then
      var m := DigitRunEnd(s, y + 1);
      if m < |s| && s[m] == '月' then
        var d := DigitRunEnd(s, m + 1);
        if d < |s| && s[d] == '日' then Some(DateMatch(p, s[p..y], s[y + 1..m], s[m + 1..d]))
        else None
      else None
    else None
  }

  /** The text a match covers. */
  function MatchedText(m: DateMatch): string {
    m.year + "年" + m.month + "月" + m.day + "日"
  }

  /** `Regex.Match`: the leftmost match at or after `from`. */
  function FindDate(s: string, from: nat): (r: Option<DateMatch>)
    requires from <= |s|
    ensures r.Some? ==> from <= r.value.start <= |s| && MatchAt(s, r.value.start) == r
    ensures forall p :: from <= p <= |s| && (r.None? || p < r.value.start) ==> MatchAt(s, p).None?
    decreases |s| - from
  {
    if MatchAt(s, from).Some? then MatchAt(s, from)
    else if from == |s| then None
    else FindDate(s, from + 1)
  }

  // ---------------------------------------------------------------------------
  // int.Parse and the format items
  // ---------------------------------------------------------------------------

  /** `Int32.MaxValue`: `int.Parse` throws on anything larger. */
  const IntMax := 2147483647

  function DigitValue(c: char): nat
    requires IsDigit(c)
  {
    c as int - '0' as int
  }

  /** The number a string of digits denotes in decimal; leading zeros add nothing. */
  function Value(s: string): nat
    requires AllDigits(s)
  {
    if s == [] then 0 else Value(s[..|s| - 1]) * 10 + DigitValue(s[|s| - 1])
  }

  /**
   * `int.Parse` on a run of digits: an empty run is a FormatException and a
   * value above `Int32.MaxValue` an OverflowException, both None here.
   */
  function ParseInt(s: string): (r: Option<nat>)
    requires AllDigits(s)
    ensures r.Some? <==> s != [] && Value(s) <= IntMax
    ensures r.Some? ==> r.value == Value(s) && r.value <= IntMax
  {
    if s == [] || Value(s) > IntMax then None else Some(Value(s))
  }

  function DigitChar(d: nat): (c: char)
    requires d < 10
    ensures IsDigit(c) && DigitValue(c) == d
  {
    (d + '0' as int) as char
  }

  /** The shortest decimal numeral of `n`. */
  function Digits(n: nat): (s: string)
    ensures s != [] && AllDigits(s) && Value(s) == n
    ensures |s| > 1 ==> s[0] != '0'
  {
    if n < 10 then [DigitChar(n)]
    else
      var s := Digits(n / 10) + [DigitChar(n % 10)];
      assert s[..|s| - 1] == Digits(n / 10);
      s
  }

  function Zeros(k: nat): (s: string)
    ensures |s| == k && AllDigits(s) && Value(s) == 0
  {
    if k == 0 then []
    else
      var s := Zeros(k - 1) + "0";
      assert s[..|s| - 1] == Zeros(k - 1);
      s
  }

  /**
   * A custom numeric format of `width` zeros: the numeral padded on the left
   * with zeros to `width` digits, never cut when it is longer.
   */
  function Pad(n: nat, width: nat): (s: string)
    ensures AllDigits(s)
    ensures |s| == if |Digits(n)| < width then width else |Digits(n)|
    ensures Value(s) == n
  {
    var k := if |Digits(n)| < width then width - |Digits(n)| else 0;
    LeadingZeros(k, Digits(n));
    Zeros(k) + Digits(n)
  }

  /** Zeros in front of a numeral do not change its value. */
  lemma {:induction false} LeadingZeros(k: nat, s: string)
    requires AllDigits(s)
    ensures AllDigits(Zeros(k) + s) && Value(Zeros(k) + s) == Value(s)
    decreases |s|
  {
    var z := Zeros(k) + s;
    if s != [] {
      assert z[..|z| - 1] == Zeros(k) + s[..|s| - 1];
      LeadingZeros(k, s[..|s| - 1]);
    } else {
      assert z == Zeros(k);
    }
  }

  /** The new folder name: `{year:0000}-{month:00}-{day:00}`. */
  function Format(year: nat, month: nat, day: nat): string {
    Pad(year, 4) + "-" + Pad(month, 2) + "-" + Pad(day, 2)
  }

  function Pow10(k: nat): nat {
    if k == 0 then 1 else 10 * Pow10(k - 1)
  }

  /** A number below 10^k has at most k digits. */
  lemma {:induction false} DigitsFit(n: nat, k: nat)
    requires 1 <= k && n < Pow10(k)
    ensures |Digits(n)| <= k
    decreases k
  {
    if n >= 10 {
      assert n / 10 < Pow10(k - 1);
      DigitsFit(n / 10, k - 1);
    }
  }

  /**
   * A date whose year has at most four digits and whose month and day have at
   * most two is formatted as ten characters: the year at 0-3, the month at 5-6
   * and the day at 8-9, each reading back as its value, with hyphens between.
   */
  lemma FormatReadsBack(year: nat, month: nat, day: nat)
    requires year <= 9999 && month <= 99 && day <= 99
    ensures var r := Format(year, month, day);
      && |r| == 10 && r[4] == '-' && r[7] == '-'
      && AllDigits(r[..4]) && AllDigits(r[5..7]) && AllDigits(r[8..])
      && Value(r[..4]) == year && Value(r[5..7]) == month && Value(r[8..]) == day
  {
    DigitsFit(year, 4);
    DigitsFit(month, 2);
    DigitsFit(day, 2);
    JoinFields(Pad(year, 4), Pad(month, 2), Pad(day, 2));
  }

  /** The fields joined by hyphens are found again at their offsets. */
  lemma JoinFields(a: string, b: string, c: string)
    ensures var r, y, m := a + "-" + b + "-" + c, |a|, |b|;
      && |r| == y + m + 2 + |c| && r[y] == '-' && r[y + 1 + m] == '-'
      && r[..y] == a && r[y + 1..y + 1 + m] == b && r[y + 2 + m..] == c
  {
  }

  // ---------------------------------------------------------------------------
  // Resolving one folder name
  // ---------------------------------------------------------------------------

  /** What the per-directory step makes of a folder name. */
  datatype Resolution =
    | NoDate             // the date part has no 年…月…日: the folder is left alone
    | NotANumber         // `int.Parse` throws on a digit group
    | NewName(name: string)

  /**
   * The name the folder `name` is to be renamed or merged into. It is left
   * alone exactly when its date part holds no match, and a new name holds no 年.
   */
  function Resolve(name: string): (r: Resolution)
    ensures r == NoDate <==> FindDate(SplitName(name).date, 0).None?
    ensures r.NewName? ==> '年' !in r.name
  {
    var date := SplitName(name).date;
    match FindDate(date, 0)
    case None => NoDate
    case Some(m) =>
      match (ParseInt(m.year), ParseInt(m.month), ParseInt(m.day))
      case (Some(y), Some(mo), Some(d)) => NoMarkInFormat(y, mo, d); NewName(Format(y, mo, d))
      case _ => NotANumber
  }

  // ---------------------------------------------------------------------------
  // Properties
  // ---------------------------------------------------------------------------

  /** A digit run that ends at a non-digit is the longest run from its start. */
  lemma RunEndsAt(s: string, i: nat, e: nat)
    requires i <= e < |s|
    requires forall k :: i <= k < e ==> IsDigit(s[k])
    requires !IsDigit(s[e])
    ensures DigitRunEnd(s, i) == e
  {
  }

  /** The text from `p` through a 日 at `d`, cut at a 年 at `y` and a 月 at `mo`. */
  lemma DateText(s: string, p: nat, y: nat, mo: nat, d: nat)
    requires p <= y < mo < d < |s|
    requires s[y] == '年' && s[mo] == '月' && s[d] == '日'
    ensures s[p..d + 1] == s[p..y] + "年" + s[y + 1..mo] + "月" + s[mo + 1..d] + "日"
  {
    assert s[p..d + 1] == s[p..y] + [s[y]] + s[y + 1..mo] + [s[mo]] + s[mo + 1..d] + [s[d]];
  }

  /** Where the groups and the markers sit in the text of a match. */
  lemma MatchedTextParts(m: DateMatch)
    ensures var t, y, mo := MatchedText(m), |m.year|, |m.year| + 1 + |m.month|;
      && |t| == mo + |m.day| + 2
      && t[0..y] == m.year && t[y] == '年'
      && t[y + 1..mo] == m.month && t[mo] == '月'
      && t[mo + 1..|t| - 1] == m.day && t[|t| - 1] == '日'
  {
  }

  /** A match covers Y年M月D日 at its start. */
  lemma MatchAtSound(s: string, p: nat)
    requires p <= |s| && MatchAt(s, p).Some?
    ensures OccursAt(s, MatchedText(MatchAt(s, p).value), p)
  {
    var m := MatchAt(s, p).value;
    var y := DigitRunEnd(s, p);
    var mo := DigitRunEnd(s, y + 1);
    var d := DigitRunEnd(s, mo + 1);
    assert m == DateMatch(p, s[p..y], s[y + 1..mo], s[mo + 1..d]);
    DateText(s, p, y, mo, d);
  }

  /** A slice of an occurrence of `w` is the same slice of `w`. */
  lemma SliceOf(s: string, p: nat, w: string, i: nat, j: nat)
    requires p + |w| <= |s| && s[p..p + |w|] == w
    requires i <= j <= |w|
    ensures s[p + i..p + j] == w[i..j]
    ensures j < |w| ==> s[p + j] == w[j]
  {
    var u := s[p..p + |w|];
    assert forall k :: 0 <= k < j - i ==> s[p + i..p + j][k] == u[i..j][k];
  }

  /** Where the text of a match occurs, its groups and markers sit at the matching offsets. */
  lemma OccursParts(s: string, m: DateMatch, y: nat, mo: nat, d: nat)
    requires OccursAt(s, MatchedText(m), m.start)
    requires y == m.start + |m.year| && mo == y + 1 + |m.month| && d == mo + 1 + |m.day|
    ensures d < |s|
    ensures s[m.start..y] == m.year && s[y] == '年'
    ensures s[y + 1..mo] == m.month && s[mo] == '月'
    ensures s[mo + 1..d] == m.day && s[d] == '日'
  {
    var t, p := MatchedText(m), m.start;
    var y0, mo0 := |m.year|, |m.year| + 1 + |m.month|;
    MatchedTextParts(m);
    PartOf(s, p, t, 0, y0, m.year, '年');
    PartOf(s, p, t, y0 + 1, mo0, m.month, '月');
    PartOf(s, p, t, mo0 + 1, |t| - 1, m.day, '日');
  }

  /** A piece of an occurrence of `t`, and the character after it, are those of `t`. */
  lemma PartOf(s: string, p: nat, t: string, i: nat, j: nat, w: string, mark: char)
    requires OccursAt(s, t, p) && i <= j < |t| && t[i..j] == w && t[j] == mark
    ensures s[p + i..p + j] == w && s[p + j] == mark
  {
    SliceOf(s, p, t, i, j);
  }

  /** A digit string sitting at `i` and followed by a non-digit is the longest run from `i`. */
  lemma RunOfDigits(s: string, i: nat, w: string)
    requires i + |w| < |s| && s[i..i + |w|] == w && AllDigits(w)
    requires !IsDigit(s[i + |w|])
    ensures DigitRunEnd(s, i) == i + |w|
  {
    assert forall k :: i <= k < i + |w| ==> s[k] == w[k - i];
    RunEndsAt(s, i, i + |w|);
  }

  /** Where Y年M月D日 occurs with digit strings Y, M and D, the pattern matches there with those groups. */
  lemma MatchAtComplete(s: string, m: DateMatch)
    requires AllDigits(m.year) && AllDigits(m.month) && AllDigits(m.day)
    requires OccursAt(s, MatchedText(m), m.start)
    ensures MatchAt(s, m.start) == Some(m)
  {
    var y := m.start + |m.year|;
    var mo := y + 1 + |m.month|;
    var d := mo + 1 + |m.day|;
    OccursParts(s, m, y, mo, d);
    MatchAtOfParts(s, m, y, mo, d);
  }

  /** The pattern matches where digit groups sit between the three markers. */
  lemma MatchAtOfParts(s: string, m: DateMatch, y: nat, mo: nat, d: nat)
    requires AllDigits(m.year) && AllDigits(m.month) && AllDigits(m.day)
    requires y == m.start + |m.year| && mo == y + 1 + |m.month| && d == mo + 1 + |m.day| && d < |s|
    requires s[m.start..y] == m.year && s[y] == '年'
    requires s[y + 1..mo] == m.month && s[mo] == '月'
    requires s[mo + 1..d] == m.day && s[d] == '日'
    ensures MatchAt(s, m.start) == Some(m)
  {
    RunOfDigits(s, m.start, m.year);
    RunOfDigits(s, y + 1, m.month);
    RunOfDigits(s, mo + 1, m.day);
    MatchAtRuns(s, m, y, mo, d);
  }

  /** The pattern's match at `p` once the three digit runs and their markers are known. */
  lemma MatchAtRuns(s: string, m: DateMatch, y: nat, mo: nat, d: nat)
    requires m.start <= y < mo < d < |s|
    requires DigitRunEnd(s, m.start) == y && s[y] == '年' && s[m.start..y] == m.year
    requires DigitRunEnd(s, y + 1) == mo && s[mo] == '月' && s[y + 1..mo] == m.month
    requires DigitRunEnd(s, mo + 1) == d && s[d] == '日' && s[mo + 1..d] == m.day
    ensures MatchAt(s, m.start) == Some(m)
  {
  }

  /**
   * The date pattern matches at `p` with groups Y, M, D exactly when Y, M and D
   * are digit strings and Y年M月D日 occurs at `p`.
   */
  lemma MatchAtIff(s: string, p: nat, m: DateMatch)
    requires p <= |s|
    ensures MatchAt(s, p) == Some(m) <==>
      m.start == p && AllDigits(m.year) && AllDigits(m.month) && AllDigits(m.day) &&
      OccursAt(s, MatchedText(m), p)
  {
    if MatchAt(s, p) == Some(m) {
      MatchAtSound(s, p);
    } else if m.start == p && AllDigits(m.year) && AllDigits(m.month) && AllDigits(m.day) &&
              OccursAt(s, MatchedText(m), p) {
      MatchAtComplete(s, m);
    }
  }

  /** Without a 年 there is no date. */
  lemma NoYearMarkNoDate(s: string)
    requires '年' !in s
    ensures FindDate(s, 0).None?
  {
  }

  /** A numeral holds no 年. */
  lemma NoMarkInDigits(s: string)
    requires AllDigits(s)
    ensures '年' !in s
  {
  }

  /** The new name is numerals and hyphens, so it holds no 年. */
  lemma NoMarkInFormat(year: nat, month: nat, day: nat)
    ensures '年' !in Format(year, month, day)
  {
    NoMarkInDigits(Pad(year, 4));
    NoMarkInDigits(Pad(month, 2));
    NoMarkInDigits(Pad(day, 2));
  }

  /**
   * The resolved name is never the folder's own name (that name holds a 年), and
   * resolving it again finds no date: a second pass leaves renamed folders alone.
   */
  lemma ResolvedNameIsNew(name: string)
    requires Resolve(name).NewName?
    ensures Resolve(name).name != name
    ensures Resolve(Resolve(name).name) == NoDate
  {
    var date := SplitName(name).date;
    if '年' !in date {
      NoYearMarkNoDate(date);
    }
    DateInName(name);
    var n := Resolve(name).name;
    var m := FindDate(date, 0).value;
    NoMarkInFormat(ParseInt(m.year).value, ParseInt(m.month).value, ParseInt(m.day).value);
    DateInName(n);
    NoYearMarkNoDate(SplitName(n).date);
  }

  /** Every character of the date part comes from the folder name. */
  lemma DateInName(name: string)
    ensures forall c :: c in SplitName(name).date ==> c in name
  {
    var p := SplitName(name);
    CharsOfLast(p.area + p.street, p.date);
    CharsOfFirstLine(name);
  }

  /** Every character of the last part of a concatenation is in the whole. */
  lemma CharsOfLast(front: string, last: string)
    ensures forall c :: c in last ==> c in front + last
  {
    forall c | c in last
      ensures c in front + last
    {
      var i :| 0 <= i < |last| && last[i] == c;
      assert (front + last)[|front| + i] == c;
    }
  }

  /** Every character of the first line is in the name. */
  lemma CharsOfFirstLine(name: string)
    ensures forall c :: c in FirstLine(name) ==> c in name
  {
    var line := FirstLine(name);
    forall c | c in line
      ensures c in name
    {
      var i :| 0 <= i < |line| && line[i] == c;
      assert name[..|line|][i] == c;
    }
  }

  /** `int.Parse` reads a padded numeral back as the number it was formatted from. */
  lemma ParsePadded(n: nat, width: nat)
    requires n <= IntMax
    ensures ParseInt(Pad(n, width)) == Some(n)
  {
  }

  /**
   * A date part holding Y年M月D日 after text with no 年 that does not end in a
   * digit resolves from Y, M and D: to their zero-padded values when all three
   * parse, with no check that they form a calendar date, and to a parse failure
   * when one is empty or above `Int32.MaxValue`.
   */
  lemma ResolveDate(name: string, lead: string, m: DateMatch, tail: string)
    requires SplitName(name).date == lead + MatchedText(m) + tail
    requires m.start == |lead|
    requires AllDigits(m.year) && AllDigits(m.month) && AllDigits(m.day)
    requires '年' !in lead && (lead == [] || !IsDigit(lead[|lead| - 1]))
    ensures Resolve(name) ==
      if m.year != [] && m.month != [] && m.day != [] &&
         Value(m.year) <= IntMax && Value(m.month) <= IntMax && Value(m.day) <= IntMax
      then NewName(Format(Value(m.year), Value(m.month), Value(m.day)))
      else NotANumber
  {
    var date := SplitName(name).date;
    OccursInMiddle(lead, MatchedText(m), tail);
    LeftmostDate(date, lead, m);
    ResolveMatch(name, m);
  }

  /** The resolution once the leftmost date match is known. */
  lemma ResolveMatch(name: string, m: DateMatch)
    requires FindDate(SplitName(name).date, 0) == Some(m)
    ensures AllDigits(m.year) && AllDigits(m.month) && AllDigits(m.day)
    ensures Resolve(name) ==
      if m.year != [] && m.month != [] && m.day != [] &&
         Value(m.year) <= IntMax && Value(m.month) <= IntMax && Value(m.day) <= IntMax
      then NewName(Format(Value(m.year), Value(m.month), Value(m.day)))
      else NotANumber
  {
  }

  /** The middle of a concatenation occurs where the first part ends. */
  lemma OccursInMiddle(lead: string, t: string, tail: string)
    ensures var s := lead + t + tail;
      s[..|lead|] == lead && OccursAt(s, t, |lead|)
  {
    var s := lead + t + tail;
    assert s[|lead|..|lead| + |t|] == t;
  }

  /** No match starts inside text with no 年 that does not end in a digit. */
  lemma NoMatchInLead(s: string, lead: string, p: nat)
    requires |lead| <= |s| && s[..|lead|] == lead
    requires '年' !in lead && (lead == [] || !IsDigit(lead[|lead| - 1]))
    requires p < |lead|
    ensures MatchAt(s, p).None?
  {
    var y := DigitRunEnd(s, p);
    if y < |lead| {
      assert s[y] == lead[y];
    }
  }

  /** The leftmost match is the first Y年M月D日 after text that cannot hold or begin one. */
  lemma LeftmostDate(s: string, lead: string, m: DateMatch)
    requires |lead| <= |s| && s[..|lead|] == lead && OccursAt(s, MatchedText(m), |lead|)
    requires m.start == |lead|
    requires AllDigits(m.year) && AllDigits(m.month) && AllDigits(m.day)
    requires '年' !in lead && (lead == [] || !IsDigit(lead[|lead| - 1]))
    ensures FindDate(s, 0) == Some(m)
  {
    MatchAtComplete(s, m);
    forall p | 0 <= p < |lead|
      ensures MatchAt(s, p).None?
    {
      NoMatchInLead(s, lead, p);
    }
    FirstMatch(s, |lead|);
  }

  /** The search from the start finds the match at `q` when none starts before `q`. */
  lemma FirstMatch(s: string, q: nat)
    requires q <= |s| && MatchAt(s, q).Some?
    requires forall p :: 0 <= p < q ==> MatchAt(s, p).None?
    ensures FindDate(s, 0) == MatchAt(s, q)
  {
  }
}
