/**
 * `parseFrontmatter` of scripts/compile-students.js: a line-based reader of
 * the `---`-delimited block at the head of a Markdown file into a mapping
 * from keys to string values.
 */
module Frontmatter {
  import opened Wrappers
  import opened JsString

  /** The plain JavaScript object the parser fills, as a finite mapping. */
  type Mapping = map<string, string>

  /** A `key: value` pair read from one line. */
  datatype Entry = Entry(key: string, value: string)

  const Delimiter: string := "---"

  /** The one key a property assignment on a plain object does not store:
      assigning a string to `__proto__` goes to the prototype setter, which
      ignores anything that is not an object. */
  const ProtoKey: string := "__proto__"

  /** A line that opens or closes the block: `---` once trimmed. */
  predicate IsDelimiter(line: string) {
    Trim(line) == Delimiter
  }

  predicate IsQuote(c: char) {
    c == '"' || c == '\''
  }

  /** The value begins and ends with the same quote character. A
      one-character value consisting of a quote counts: it both begins
      and ends with it. */
  predicate QuotedBy(v: string) {
    |v| >= 1 && IsQuote(v[0]) && v[|v| - 1] == v[0]
  }

  /** One layer of matching quotes removed, as `value.slice(1, -1)` does;
      on a lone quote that slice is empty. */
  function StripQuotes(v: string): (r: string)
    ensures QuotedBy(v) ==> |r| == if |v| >= 2 then |v| - 2 else 0
    ensures QuotedBy(v) && |v| >= 2 ==> v == [v[0]] + r + [v[0]]
    ensures !QuotedBy(v) ==> r == v
  {
    if QuotedBy(v) then (if |v| >= 2 then v[1..|v| - 1] else []) else v
  }

  /** The entry one line of the block contributes: split at the first colon
      when it lies past index 0, key and value trimmed, the value unquoted. */
  function ParseLine(line: string): (r: Option<Entry>)
    ensures r.Some? <==> ':' in line && line[0] != ':'
    ensures r.Some? ==> ':' !in r.value.key && IsTrimmed(r.value.key)
  {
    var separatorIndex := IndexOf(line, ':');
    if separatorIndex > 0 then
      Some(Entry(KeyBefore(line, separatorIndex), ValueAfter(line, separatorIndex)))
    else
      None
  }

  /** The key: the text before the separator, trimmed. */
  function KeyBefore(line: string, separatorIndex: nat): (key: string)
    requires separatorIndex <= |line| && forall j :: 0 <= j < separatorIndex ==> line[j] != ':'
    ensures ':' !in key && IsTrimmed(key)
  {
    var key := Trim(line[..separatorIndex]);
    TrimIsTrimmed(line[..separatorIndex]);
    assert forall c :: c in key ==> c in line[..separatorIndex];
    assert ':' !in line[..separatorIndex];
    key
  }

  /** The value: the text after the separator, trimmed and unquoted. */
  function ValueAfter(line: string, separatorIndex: nat): string
    requires separatorIndex < |line|
  {
    StripQuotes(Trim(line[separatorIndex + 1..]))
  }

  /** `frontmatter[key] = value` on a plain object: later assignments to a
      key replace earlier ones; `__proto__` is not stored. */
  function Assign(fm: Mapping, key: string, value: string): (r: Mapping)
    ensures key != ProtoKey ==> r == fm[key := value]
    ensures key == ProtoKey ==> r == fm
  {
    if key == ProtoKey then fm else fm[key := value]
  }

  /** What scanning one line does to the mapping, given what the line parsed to. */
  function Apply(fm: Mapping, entry: Option<Entry>): Mapping {
    match entry
    case Some(e) => Assign(fm, e.key, e.value)
    case None => fm
  }

  /** The mapping built by scanning `lines[lo..hi]` in order from an empty object. */
  function Collect(lines: seq<string>, lo: nat, hi: nat): (r: Mapping)
    requires lo <= hi <= |lines|
    ensures ProtoKey !in r
    ensures forall k :: k in r ==> ':' !in k && IsTrimmed(k)
    decreases hi
  {
    if hi == lo then map[] else Apply(Collect(lines, lo, hi - 1), ParseLine(lines[hi - 1]))
  }

  /** The index of the first delimiter line at or after `i`, or `|lines|`
      when there is none: where the scan that starts at `i` stops. */
  function CloseIndex(lines: seq<string>, i: nat): (k: nat)
    requires i <= |lines|
    ensures i <= k <= |lines|
    ensures k < |lines| ==> IsDelimiter(lines[k])
    ensures forall j :: i <= j < k ==> !IsDelimiter(lines[j])
    decreases |lines| - i
  {
    if i == |lines| || IsDelimiter(lines[i]) then i else CloseIndex(lines, i + 1)
  }

  /** The result of the parser on the lines of a file. */
  function ParseLines(lines: seq<string>): Mapping
    requires |lines| >= 1
  {
    if IsDelimiter(lines[0]) then Collect(lines, 1, CloseIndex(lines, 1)) else map[]
  }

  /** `parseFrontmatter(fileContent)`, the specification of the scan below. */
  function ParseFrontmatter(content: string): (r: Mapping)
    ensures !IsDelimiter(Split(content)[0]) ==> r == map[]
    ensures ProtoKey !in r
    ensures forall k :: k in r ==> ':' !in k && IsTrimmed(k)
  {
    ParseLines(Split(content))
  }

  /** The parser as the source runs it: a loop that advances over the lines
      after an opening delimiter and assigns each entry into the object. */
  method ParseFrontmatterScan(fileContent: string) returns (frontmatter: Mapping)
    ensures frontmatter == ParseFrontmatter(fileContent)
  {
    frontmatter := map[];
    var contentLines := Split(fileContent);
    if Trim(contentLines[0]) == Delimiter {
      var i := 1;
      while i < |contentLines| && Trim(contentLines[i]) != Delimiter
        invariant 1 <= i <= CloseIndex(contentLines, 1)
        invariant frontmatter == Collect(contentLines, 1, i)
        decreases |contentLines| - i
      {
        var line := contentLines[i];
        var entry := ParseLine(line);
        ScanStep(contentLines, i);
        if entry.Some? {
          frontmatter := Assign(frontmatter, entry.value.key, entry.value.value);
        }
        i := i + 1;
      }
      ScanExit(contentLines, i);
    }
  }

  /** One more line scanned: the scan has not passed the closing delimiter. */
  lemma ScanStep(lines: seq<string>, i: nat)
    requires 1 <= i < |lines| && i <= CloseIndex(lines, 1)
    requires !IsDelimiter(lines[i])
    ensures i + 1 <= CloseIndex(lines, 1)
  {
    var k := CloseIndex(lines, 1);
    assert k != i;
  }

  /** Where the loop stops is where the closing delimiter is, or the end. */
  lemma ScanExit(lines: seq<string>, i: nat)
    requires 1 <= i <= |lines| && i <= CloseIndex(lines, 1)
    requires i == |lines| || IsDelimiter(lines[i])
    ensures i == CloseIndex(lines, 1)
  {
  }

  // ---------------------------------------------------------------------
  // Properties of the parser

  /** A value wrapped in one pair of matching quotes comes back without
      them, whatever it holds: only one layer is removed. */
  lemma StripOneLayer(q: char, s: string)
    requires IsQuote(q)
    ensures StripQuotes([q] + s + [q]) == s
  {
    var v := [q] + s + [q];
    assert v[1..|v| - 1] == s;
  }

  /** A value that does not begin and end with the same quote character is
      kept as it is, even when it begins with one quote and ends with the other. */
  lemma MismatchedQuotesKept(s: string)
    ensures StripQuotes(['"'] + s + ['\'']) == ['"'] + s + ['\'']
    ensures StripQuotes(['\''] + s + ['"']) == ['\''] + s + ['"']
  {
  }

  /** `""a""` loses one pair of quotes and keeps the inner one. */
  lemma DoubleQuotedOnce()
    ensures StripQuotes("\"\"a\"\"") == "\"a\""
  {
    StripOneLayer('"', "\"a\"");
    assert ['"'] + "\"a\"" + ['"'] == "\"\"a\"\"";
  }

  /** A line of the form `k:v` whose `k` is non-empty and colon-free gives
      the trimmed `k` as key and the trimmed, unquoted `v` as value; `v` may
      itself contain colons. */
  lemma ParseLineFirstColon(k: string, v: string)
    requires k != [] && ':' !in k
    ensures ParseLine(k + ":" + v) == Some(Entry(Trim(k), StripQuotes(Trim(v))))
  {
    var line := k + ":" + v;
    assert line[|k|] == ':';
    assert line[..|k|] == k;
    var idx := IndexOf(line, ':');
    assert idx == |k| by {
      assert forall j :: 0 <= j < |k| ==> line[j] == k[j];
    }
    assert line[|k| + 1..] == v;
  }

  /** What each line of `lines` parses to. */
  function Parsed(lines: seq<string>): seq<Option<Entry>> {
    seq(|lines|, j requires 0 <= j < |lines| => ParseLine(lines[j]))
  }

  /** A parsed line stores `key`: it is an entry for that key, and the key
      is one a plain object keeps. */
  predicate Gives(entry: Option<Entry>, key: string) {
    entry.Some? && entry.value.key == key && key != ProtoKey
  }

  lemma ApplyEffect(fm: Mapping, entry: Option<Entry>, key: string)
    ensures key in Apply(fm, entry) <==> key in fm || Gives(entry, key)
    ensures Gives(entry, key) ==> Apply(fm, entry)[key] == entry.value.value
    ensures !Gives(entry, key) && key in fm ==> Apply(fm, entry)[key] == fm[key]
  {
  }

  /** The index of the last entry of `entries[lo..hi]` that stores `key`,
      or -1 when none does. */
  function LastContributor(entries: seq<Option<Entry>>, key: string, lo: nat, hi: nat): (r: int)
    requires lo <= hi <= |entries|
    ensures r == -1 || lo <= r < hi
    ensures r >= 0 ==> Gives(entries[r], key)
    ensures forall j :: lo <= j < hi && r < j ==> !Gives(entries[j], key)
    decreases hi
  {
    if hi == lo then -1
    else if Gives(entries[hi - 1], key) then hi - 1
    else LastContributor(entries, key, lo, hi - 1)
  }

  /** Last write wins: a key is present exactly when some line of the range
      stores it, and then it holds the value of the last such line. */
  lemma {:induction false} CollectLastWriteWins(lines: seq<string>, key: string, lo: nat, hi: nat)
    requires lo <= hi <= |lines|
    ensures var r := LastContributor(Parsed(lines), key, lo, hi);
            && (key in Collect(lines, lo, hi) <==> r >= 0)
            && (r >= 0 ==> Collect(lines, lo, hi)[key] == Parsed(lines)[r].value.value)
    decreases hi
  {
    if hi > lo {
      CollectLastWriteWins(lines, key, lo, hi - 1);
      CollectStep(lines, lo, hi);
      ApplyEffect(Collect(lines, lo, hi - 1), Parsed(lines)[hi - 1], key);
    }
  }

  lemma CollectStep(lines: seq<string>, lo: nat, hi: nat)
    requires lo < hi <= |lines|
    ensures Collect(lines, lo, hi) == Apply(Collect(lines, lo, hi - 1), Parsed(lines)[hi - 1])
  {
  }

  /** The fold only looks at the lines in its range. */
  lemma {:induction false} CollectFrame(s: seq<string>, t: seq<string>, lo: nat, hi: nat)
    requires lo <= hi <= |s| && hi <= |t|
    requires forall j :: lo <= j < hi ==> s[j] == t[j]
    ensures Collect(s, lo, hi) == Collect(t, lo, hi)
    decreases hi
  {
    if hi > lo {
      CollectFrame(s, t, lo, hi - 1);
    }
  }

  /** The closing delimiter ends the block: the lines after the first closing
      delimiter, whatever they are, do not change the result. */
  lemma ClosingDelimiterStops(lines: seq<string>, c: nat, tail: seq<string>)
    requires 1 <= c < |lines|
    requires IsDelimiter(lines[0]) && IsDelimiter(lines[c])
    requires forall j :: 1 <= j < c ==> !IsDelimiter(lines[j])
    ensures ParseLines(lines + tail) == Collect(lines, 1, c)
  {
    var all := lines + tail;
    assert forall j :: 0 <= j <= c ==> all[j] == lines[j];
    CloseIndexIsFirst(all, 1, c);
    CollectFrame(all, lines, 1, c);
  }

  /** The stopping index is the first delimiter line, as the contract of `CloseIndex` pins it down. */
  lemma CloseIndexIsFirst(lines: seq<string>, i: nat, c: nat)
    requires i <= c <= |lines|
    requires c < |lines| ==> IsDelimiter(lines[c])
    requires forall j :: i <= j < c ==> !IsDelimiter(lines[j])
    ensures CloseIndex(lines, i) == c
  {
  }

  /** Without a closing delimiter, every line after the opening one is scanned. */
  lemma UnclosedScansAll(lines: seq<string>)
    requires |lines| >= 1 && IsDelimiter(lines[0])
    requires forall j :: 1 <= j < |lines| ==> !IsDelimiter(lines[j])
    ensures ParseLines(lines) == Collect(lines, 1, |lines|)
  {
    CloseIndexIsFirst(lines, 1, |lines|);
  }

  /** The same facts on file text. Newline-free lines joined with newlines,
      of which the first is an opening delimiter and line `c` the first
      closing one, followed by anything at all: only lines 1 to `c - 1` count. */
  lemma ParseClosedContent(lines: seq<string>, c: nat, rest: string)
    requires 1 <= c < |lines|
    requires forall j :: 0 <= j < |lines| ==> '\n' !in lines[j]
    requires IsDelimiter(lines[0]) && IsDelimiter(lines[c])
    requires forall j :: 1 <= j < c ==> !IsDelimiter(lines[j])
    ensures ParseFrontmatter(Join(lines)) == Collect(lines, 1, c)
    ensures ParseFrontmatter(Join(lines) + "\n" + rest) == Collect(lines, 1, c)
  {
    SplitJoin(lines);
    SplitAppend(Join(lines), rest);
    ClosingDelimiterStops(lines, c, Split(rest));
    ClosingDelimiterStops(lines, c, []);
    assert lines + [] == lines;
  }

  /** Text that opens a block and never closes it: every later line counts. */
  lemma ParseUnclosedContent(lines: seq<string>)
    requires |lines| >= 1
    requires forall j :: 0 <= j < |lines| ==> '\n' !in lines[j]
    requires IsDelimiter(lines[0])
    requires forall j :: 1 <= j < |lines| ==> !IsDelimiter(lines[j])
    ensures ParseFrontmatter(Join(lines)) == Collect(lines, 1, |lines|)
  {
    SplitJoin(lines);
    UnclosedScansAll(lines);
  }

  /** Text whose first line is not `---` once trimmed, the empty text among
      them, has no frontmatter. */
  lemma NoOpeningDelimiter(first: string, rest: string)
    requires '\n' !in first && !IsDelimiter(first)
    ensures ParseFrontmatter(first) == map[]
    ensures ParseFrontmatter(first + "\n" + rest) == map[]
  {
    SplitJoin([first]);
    SplitAppend(first, rest);
  }

  /** The empty file has no frontmatter. */
  lemma EmptyContent()
    ensures ParseFrontmatter("") == map[]
  {
    assert Split("") == [""];
  }

  /** A byte order mark or a carriage return around a delimiter line does not
      hide it: those characters are whitespace to `trim`. */
  lemma DelimiterWithBomAndCr()
    ensures IsDelimiter("\U{FEFF}---\r")
  {
    TrimOfPadded("\U{FEFF}", Delimiter, "\r");
    assert "\U{FEFF}---\r" == "\U{FEFF}" + Delimiter + "\r";
  }
}
