/**
 * The exiftool wrapper: the parser that turns the tool's tagged text output
 * (`-G -t`, one tag per line written as group TAB name TAB value) into records,
 * and the queries over those records. The tool's output is a parameter: the
 * subprocess that produces it is not modelled.
 */
module ExifTool {
  import opened Wrappers
  import opened Text

  /** One parsed tag, `ExifTagItem`. */
  datatype TagItem = TagItem(group: string, name: string, value: string)

  /** The three fields of a tag line, before the binary-data notice is removed. */
  datatype Fields = Fields(group: string, name: string, raw: string)

  /** The text exiftool appends to a value whose binary payload it withholds (26 characters). */
  const BinaryNotice := ", use -b option to extract"

  /** A line yields a record: its first character is not a tab and it holds at least two tabs. */
  predicate IsTagLine(line: string) {
    |line| > 0 && line[0] != '\t' &&
    exists i, j :: 0 < i < j < |line| && line[i] == '\t' && line[j] == '\t'
  }

  /**
   * Cuts a line at its first two tabs into group, name and raw value; a line
   * whose first tab is at index 0, or that has fewer than two tabs, is skipped.
   */
  function SplitLine(line: string): Option<Fields>
  {
    var tpos1 := IndexOfChar(line, '\t', 0);
    var tpos2 := IndexOfChar(line, '\t', tpos1 + 1);
    if tpos1 > 0 && tpos2 > 0 then
      Some(Fields(line[..tpos1], line[tpos1 + 1..tpos2], line[tpos2 + 1..]))
    else
      None
  }

  /**
   * Removes the first occurrence of the binary-data notice from a value,
   * leaving the text before and after it as it was.
   */
  function StripNotice(value: string): (r: string)
    ensures !Contains(value, BinaryNotice) ==> r == value
    ensures Contains(value, BinaryNotice) ==>
      exists k :: FirstAt(value, BinaryNotice, k) && r == value[..k] + value[k + 26..]
  {
    var tpos := IndexOfText(value, BinaryNotice, 0);
    if tpos >= 0 then value[..tpos] + value[tpos + 26..] else value
  }

  /** The record a split line becomes. */
  function ToItem(f: Fields): TagItem {
    TagItem(f.group, f.name, StripNotice(f.raw))
  }

  /** `epos` before the terminator is consumed: the index of the first '\r', or |s| when there is none. */
  function LineEnd(s: string): (e: nat)
    ensures e <= |s|
    ensures forall i :: 0 <= i < e ==> s[i] != '\r'
    ensures e < |s| ==> s[e] == '\r'
  {
    var i := IndexOfChar(s, '\r', 0);
    if i < 0 then |s| else i
  }

  /**
   * What is left of `s` once its first line and that line's terminator, '\r'
   * or '\r' '\n', are consumed. When the '\r' is the last character, `Run`
   * fails reading past the end; nothing is left in that case either.
   */
  function Rest(s: string): (r: string)
    requires s != []
    ensures |r| < |s|
  {
    var e := LineEnd(s);
    if e == |s| then []
    else if e + 1 < |s| && s[e + 1] == '\n' then s[e + 2..]
    else s[e + 1..]
  }

  /** The lines `Run` cuts the output into, in order. */
  function Lines(s: string): (ls: seq<string>)
    ensures s == [] <==> ls == []
    decreases |s|
  {
    if s == [] then [] else [s[..LineEnd(s)]] + Lines(Rest(s))
  }

  /** The record a single line yields: one for a tag line, none otherwise. */
  function LineRecords(line: string): seq<TagItem> {
    match SplitLine(line)
    case Some(f) => [ToItem(f)]
    case None => []
  }

  /** The records `Run` produces for the tool output `s`, in line order. */
  function Records(s: string): seq<TagItem>
    decreases |s|
  {
    if s == [] then [] else LineRecords(s[..LineEnd(s)]) + Records(Rest(s))
  }

  /** `Run` reads past the end of the output exactly when the output ends in '\r'. */
  predicate EndsInCarriageReturn(s: string) {
    |s| > 0 && s[|s| - 1] == '\r'
  }

  /** The first position at or after `start` whose record is named `name`, or -1. */
  function IndexOfName(items: seq<TagItem>, name: string, start: nat): (r: int)
    requires start <= |items|
    ensures r == -1 || start <= r < |items|
    ensures 0 <= r ==> items[r].name == name
    ensures forall i :: start <= i < |items| && (r < 0 || i < r) ==> items[i].name != name
    decreases |items| - start
  {
    if start == |items| then -1
    else if items[start].name == name then start
    else IndexOfName(items, name, start + 1)
  }

  /** The wrapper, which in the source is itself the list of records of the last run. */
  class ExifToolWrapper {
    var items: seq<TagItem>

    constructor ()
      ensures items == []
    {
      items := [];
    }

    /**
     * Parses the tool's output, replacing all previous records. Returns false
     * when the parse reads past the end of the output (a final lone '\r'); the
     * records of every line, the last included, have been added by then.
     */
    method Run(output: string) returns (completed: bool)
      modifies this
      ensures items == Records(output)
      ensures completed <==> !EndsInCarriageReturn(output)
    {
      var rest := output;
      items := [];
      while |rest| > 0
        invariant items + Records(rest) == Records(output)
        invariant rest == [] ==> !EndsInCarriageReturn(output)
        invariant rest != [] ==> (EndsInCarriageReturn(rest) <==> EndsInCarriageReturn(output))
        decreases |rest|
      {
        var epos := LineEnd(rest);
        var tmp := rest[..epos];
        RecordsStep(items, rest, output);
        items := items + LineRecords(tmp);
        if epos + 1 == |rest| {
          // the terminator is the last character: reading the one after it fails
          return false;
        }
        RestKeepsLast(rest);
        rest := Rest(rest);
      }
      return true;
    }

    /** Whether the last run produced any record. */
    function HasExifData(): (b: bool)
      reads this
      ensures b <==> items != []
    {
      |items| > 0
    }

    /** The first record, in list order, whose name is exactly `tagname` (ordinal), or None. */
    function Find(tagname: string): (r: Option<TagItem>)
      reads this
      ensures r.None? <==> forall i :: 0 <= i < |items| ==> items[i].name != tagname
      ensures r.Some? ==>
        && r.value.name == tagname
        && exists i :: 0 <= i < |items| && items[i] == r.value &&
             forall j :: 0 <= j < i ==> items[j].name != tagname
    {
      var i := IndexOfName(items, tagname, 0);
      if i < 0 then None else Some(items[i])
    }
  }

  /** `SaveExifData` and `WriteExifData` report success unless the tool's output mentions "Error". */
  function CommandSucceeded(output: string): (ok: bool)
    ensures ok <==> !Contains(output, "Error")
  {
    IndexOfText(output, "Error", 0) < 0
  }

  /** One turn of the parse loop: the records of the first line, then those of the rest. */
  lemma RecordsStep(done: seq<TagItem>, s: string, output: string)
    requires s != []
    requires done + Records(s) == Records(output)
    ensures (done + LineRecords(s[..LineEnd(s)])) + Records(Rest(s)) == Records(output)
  {
    RecordsUnfold(s);
    AppendAssoc(done, LineRecords(s[..LineEnd(s)]), Records(Rest(s)));
  }

  /** `Records` of a non-empty output: the records of its first line, then those of the rest. */
  lemma RecordsUnfold(s: string)
    requires s != []
    ensures Records(s) == LineRecords(s[..LineEnd(s)]) + Records(Rest(s))
  {
  }

  /** Appending record lists is associative. */
  lemma AppendAssoc(a: seq<TagItem>, b: seq<TagItem>, c: seq<TagItem>)
    ensures a + (b + c) == (a + b) + c
  {
  }

  /**
   * A line yields at most one record; every record has a non-empty group, and
   * neither its group nor its name holds a tab.
   */
  lemma {:induction false} RecordsFields(s: string)
    ensures |Records(s)| <= |Lines(s)|
    ensures forall i :: 0 <= i < |Records(s)| ==>
      Records(s)[i].group != [] && '\t' !in Records(s)[i].group && '\t' !in Records(s)[i].name
    decreases |s|
  {
    if s != [] {
      var line, rest := LineRecords(s[..LineEnd(s)]), Records(Rest(s));
      RecordsFields(Rest(s));
      assert Records(s) == line + rest;
      forall i | 0 <= i < |Records(s)|
        ensures Records(s)[i].group != [] && '\t' !in Records(s)[i].group && '\t' !in Records(s)[i].name
      {
        if i >= |line| {
          assert Records(s)[i] == rest[i - |line|];
        }
      }
    }
  }

  /**
   * Consuming a line keeps whether the output ends in '\r'; when nothing
   * is left and the terminator was not the last character, it did not.
   */
  lemma RestKeepsLast(s: string)
    requires s != []
    ensures Rest(s) != [] ==> (EndsInCarriageReturn(Rest(s)) <==> EndsInCarriageReturn(s))
    ensures Rest(s) == [] && LineEnd(s) + 1 != |s| ==> !EndsInCarriageReturn(s)
  {
  }

  /**
   * A line is split exactly when it is a tag line; its group is non-empty,
   * neither group nor name holds a tab, and group TAB name TAB raw value is the
   * line itself.
   */
  lemma SplitLineFields(line: string)
    ensures SplitLine(line).Some? <==> IsTagLine(line)
    ensures SplitLine(line).Some? ==>
      var f := SplitLine(line).value;
      && line == f.group + "\t" + f.name + "\t" + f.raw
      && f.group != [] && '\t' !in f.group && '\t' !in f.name
  {
    var tpos1 := IndexOfChar(line, '\t', 0);
    var tpos2 := IndexOfChar(line, '\t', tpos1 + 1);
    if tpos1 > 0 && tpos2 > 0 {
      assert line == line[..tpos1] + [line[tpos1]] + line[tpos1 + 1..tpos2] + [line[tpos2]] + line[tpos2 + 1..];
    }
  }

  /** The converse of `SplitLineFields`: a tag line written from its fields splits back into them. */
  lemma SplitLineOfFields(f: Fields)
    requires f.group != [] && '\t' !in f.group && '\t' !in f.name
    ensures SplitLine(f.group + "\t" + f.name + "\t" + f.raw) == Some(f)
  {
    var line := f.group + "\t" + f.name + "\t" + f.raw;
    var g, n := |f.group|, |f.name|;
    assert line[g] == '\t' && line[g + 1 + n] == '\t';
    assert forall i :: 0 <= i < g ==> line[i] == f.group[i];
    assert forall i :: g + 1 <= i < g + 1 + n ==> line[i] == f.name[i - g - 1];
    assert IndexOfChar(line, '\t', 0) == g;
    assert IndexOfChar(line, '\t', g + 1) == g + 1 + n;
    assert line[..g] == f.group;
    assert line[g + 1..g + 1 + n] == f.name;
    assert line[g + 2 + n..] == f.raw;
  }

  /** The notice's only comma is its first character. */
  lemma NoticeCommaFirst()
    ensures BinaryNotice[0] == ','
    ensures forall k :: 0 < k < |BinaryNotice| ==> BinaryNotice[k] != ','
  {
  }

  /** A notice placed after text that does not contain one cannot begin inside that text. */
  lemma NoNoticeBefore(before: string, after: string, j: int)
    requires !Contains(before, BinaryNotice)
    requires 0 <= j < |before|
    ensures !OccursAt(before + BinaryNotice + after, BinaryNotice, j)
  {
    var v := before + BinaryNotice + after;
    var b := |before|;
    if j + 26 <= b {
      assert v[j..j + 26] == before[j..j + 26];
      assert !OccursAt(before, BinaryNotice, j);
    } else if OccursAt(v, BinaryNotice, j) {
      assert v[j..j + 26][b - j] == v[b];
      NoticeCommaFirst();
      assert false;
    }
  }

  /**
   * A value holding the binary-data notice, with no earlier occurrence,
   * loses exactly that notice: the text on both sides is kept.
   */
  lemma StripNoticeOfNotice(before: string, after: string)
    requires !Contains(before, BinaryNotice)
    ensures StripNotice(before + BinaryNotice + after) == before + after
  {
    var v := before + BinaryNotice + after;
    var b := |before|;
    assert v[b..b + 26] == BinaryNotice;
    forall j | 0 <= j < b
      ensures !OccursAt(v, BinaryNotice, j)
    {
      NoNoticeBefore(before, after, j);
    }
    IndexOfTextFirst(v, BinaryNotice, b);
    assert v[..b] == before && v[b + 26..] == after;
  }

  /** A record exiftool can print on one line of `-G -t` output. */
  predicate Printable(f: Fields) {
    f.group != [] && '\t' !in f.group && '\t' !in f.name &&
    '\r' !in f.group && '\r' !in f.name && '\r' !in f.raw
  }

  /** The tool's output for a list of records: group TAB name TAB value, each line ended by CR LF. */
  function Print(fs: seq<Fields>): (s: string)
    ensures fs == [] <==> s == []
  {
    if fs == [] then [] else fs[0].group + "\t" + fs[0].name + "\t" + fs[0].raw + "\r\n" + Print(fs[1..])
  }

  /** The records the given fields become, in order. */
  function ItemsOf(fs: seq<Fields>): (items: seq<TagItem>)
    ensures |items| == |fs|
    ensures forall i :: 0 <= i < |fs| ==> items[i] == ToItem(fs[i])
  {
    if fs == [] then [] else [ToItem(fs[0])] + ItemsOf(fs[1..])
  }

  /** The first line of printed output is the first record's line, and the rest is the others' output. */
  lemma PrintFirstLine(fs: seq<Fields>)
    requires fs != [] && Printable(fs[0])
    ensures var line := fs[0].group + "\t" + fs[0].name + "\t" + fs[0].raw;
      && LineEnd(Print(fs)) == |line|
      && Print(fs)[..|line|] == line
      && Rest(Print(fs)) == Print(fs[1..])
  {
    var line := fs[0].group + "\t" + fs[0].name + "\t" + fs[0].raw;
    var s := Print(fs);
    assert s == line + "\r\n" + Print(fs[1..]);
    assert '\r' !in line;
    assert forall i :: 0 <= i < |line| ==> s[i] == line[i];
    assert s[|line|] == '\r' && s[|line| + 1] == '\n';
    assert s[..|line|] == line;
    assert s[|line| + 2..] == Print(fs[1..]);
  }

  /** Parsing what exiftool prints gives back its records, in order: `Run` loses and invents nothing. */
  lemma {:induction false} RecordsOfPrint(fs: seq<Fields>)
    requires forall i :: 0 <= i < |fs| ==> Printable(fs[i])
    ensures Records(Print(fs)) == ItemsOf(fs)
  {
    if fs != [] {
      var f := fs[0];
      PrintFirstLine(fs);
      SplitLineOfFields(f);
      RecordsOfPrint(fs[1..]);
    }
  }

  /** No line of `[line] + ls` is a tag line exactly when neither `line` nor any of `ls` is. */
  lemma NoTagLineCons(line: string, ls: seq<string>)
    ensures (forall i :: 0 <= i < |[line] + ls| ==> !IsTagLine(([line] + ls)[i])) <==>
      !IsTagLine(line) && forall i :: 0 <= i < |ls| ==> !IsTagLine(ls[i])
  {
    var all := [line] + ls;
    assert all[0] == line;
    assert forall i :: 0 <= i < |ls| ==> all[i + 1] == ls[i];
  }

  /** An output yields no record exactly when none of its lines is a tag line. */
  lemma {:induction false} RecordsEmptyIff(s: string)
    ensures Records(s) == [] <==> forall i :: 0 <= i < |Lines(s)| ==> !IsTagLine(Lines(s)[i])
    decreases |s|
  {
    if s != [] {
      var line, rest := s[..LineEnd(s)], Rest(s);
      assert Records(s) == LineRecords(line) + Records(rest);
      assert LineRecords(line) == [] <==> !IsTagLine(line) by {
        SplitLineFields(line);
      }
      RecordsEmptyIff(rest);
      assert Lines(s) == [line] + Lines(rest);
      NoTagLineCons(line, Lines(rest));
    }
  }
}
