/**
 * The record-building pipeline of `main` in scripts/compile-students.js:
 * keep the directory entries whose names end in `.md`, parse each file's
 * frontmatter, and attach the file's slug. The directory listing is an
 * input sequence (its order is whatever the platform enumerates) and the
 * file system is a map from names to contents; a name missing from it is a
 * read that throws, which aborts the whole run.
 */
module Compiler {
  import opened Wrappers
  import opened JsString
  import opened Frontmatter

  /** One compiled student: the parsed frontmatter plus its `slug`. */
  type Record = Mapping

  const Extension: string := ".md"
  const SlugKey: string := "slug"

  predicate IsMarkdown(name: string) {
    EndsWith(name, Extension)
  }

  /** `names.filter(file => file.endsWith('.md'))`. */
  function MarkdownFiles(names: seq<string>): (r: seq<string>)
    ensures |r| <= |names|
    ensures forall i :: 0 <= i < |r| ==> IsMarkdown(r[i])
    ensures forall x :: x in r <==> x in names && IsMarkdown(x)
  {
    if names == [] then []
    else (if IsMarkdown(names[0]) then [names[0]] else []) + MarkdownFiles(names[1..])
  }

  /** `path.basename(file, '.md')` on a directory entry name, which holds no
      path separator: the name without its trailing `.md`. On the name `.md`
      itself that is the empty string. */
  function Slug(name: string): (s: string)
    requires IsMarkdown(name)
    ensures s + Extension == name
  {
    name[..|name| - |Extension|]
  }

  /** The object the map callback returns: the parsed frontmatter with
      `slug` assigned last, so it replaces any `slug` from the file. */
  function BuildRecord(name: string, content: string): (r: Record)
    requires IsMarkdown(name)
    ensures SlugKey in r && r[SlugKey] + Extension == name
    ensures r.Keys == ParseFrontmatter(content).Keys + {SlugKey}
    ensures forall k :: k in r && k != SlugKey ==> r[k] == ParseFrontmatter(content)[k]
  {
    ParseFrontmatter(content)[SlugKey := Slug(name)]
  }

  predicate AllMarkdown(names: seq<string>) {
    forall i :: 0 <= i < |names| ==> IsMarkdown(names[i])
  }

  /** The `map` over the Markdown names, reading each file in turn: the
      records in order, or the first name whose contents cannot be read. */
  function CompileRecords(mdFiles: seq<string>, contents: map<string, string>): (r: Result<seq<Record>, string>)
    requires AllMarkdown(mdFiles)
    ensures r.Success? <==> forall i :: 0 <= i < |mdFiles| ==> mdFiles[i] in contents
    ensures r.Success? ==> |r.value| == |mdFiles|
    ensures r.Failure? ==> r.error in mdFiles && r.error !in contents
  {
    if mdFiles == [] then Success([])
    else if mdFiles[0] !in contents then Failure(mdFiles[0])
    else
      match CompileRecords(mdFiles[1..], contents)
      case Success(rest) => Success([BuildRecord(mdFiles[0], contents[mdFiles[0]])] + rest)
      case Failure(name) => Failure(name)
  }

  /** The whole pipeline from a directory listing to the compiled collection. */
  function Compile(listing: seq<string>, contents: map<string, string>): (r: Result<seq<Record>, string>)
    ensures r.Success? <==> forall x :: x in listing && IsMarkdown(x) ==> x in contents
    ensures r.Success? ==> |r.value| == |MarkdownFiles(listing)|
    ensures r.Failure? ==> r.error in listing && IsMarkdown(r.error) && r.error !in contents
  {
    CompileRecords(MarkdownFiles(listing), contents)
  }

  // ---------------------------------------------------------------------
  // Properties of the pipeline

  /** Filtering keeps the listing's order: it distributes over concatenation. */
  lemma {:induction false} MarkdownFilesAppend(a: seq<string>, b: seq<string>)
    ensures MarkdownFiles(a + b) == MarkdownFiles(a) + MarkdownFiles(b)
  {
    if a == [] {
      assert a + b == b;
    } else {
      assert (a + b)[0] == a[0];
      assert (a + b)[1..] == a[1..] + b;
      MarkdownFilesAppend(a[1..], b);
    }
  }

  /** A listing of Markdown names only passes the filter unchanged; a name
      without the extension contributes nothing. */
  lemma {:induction false} MarkdownFilesKeepsMarkdown(names: seq<string>)
    ensures AllMarkdown(names) ==> MarkdownFiles(names) == names
    ensures forall x :: x in names ==> !IsMarkdown(x) ==> x !in MarkdownFiles(names)
  {
    if names != [] {
      MarkdownFilesKeepsMarkdown(names[1..]);
      if AllMarkdown(names) {
        assert AllMarkdown(names[1..]) by {
          forall i | 0 <= i < |names| - 1 ensures IsMarkdown(names[1..][i]) {
            assert names[1..][i] == names[i + 1];
          }
        }
        assert names == [names[0]] + names[1..];
      }
    }
  }

  /** Stripping the extension is undone by appending it: the slug of
      `stem + ".md"` is `stem`. */
  lemma SlugOfStem(stem: string)
    ensures IsMarkdown(stem + Extension)
    ensures Slug(stem + Extension) == stem
  {
    assert (stem + Extension)[|stem|..] == Extension;
    assert (stem + Extension)[..|stem|] == stem;
  }

  /** Only the file named exactly `.md` has an empty slug. */
  lemma SlugEmptyIff(name: string)
    requires IsMarkdown(name)
    ensures Slug(name) == [] <==> name == Extension
  {
    if Slug(name) == [] {
      assert Slug(name) + Extension == Extension;
    }
  }

  /** A file without a frontmatter block yields a record whose only key is `slug`. */
  lemma NoFrontmatterOnlySlug(name: string, content: string)
    requires IsMarkdown(name)
    requires !IsDelimiter(Split(content)[0])
    ensures BuildRecord(name, content) == map[SlugKey := Slug(name)]
  {
  }

  /** Record `i` of a successful run is built from the `i`-th Markdown name
      of the listing and that file's contents. */
  lemma {:induction false} CompileRecordAt(mdFiles: seq<string>, contents: map<string, string>, i: nat)
    requires AllMarkdown(mdFiles)
    requires CompileRecords(mdFiles, contents).Success?
    requires i < |mdFiles|
    ensures mdFiles[i] in contents
    ensures CompileRecords(mdFiles, contents).value[i] == BuildRecord(mdFiles[i], contents[mdFiles[i]])
  {
    if i > 0 {
      assert AllMarkdown(mdFiles[1..]) by {
        forall j | 0 <= j < |mdFiles| - 1 ensures IsMarkdown(mdFiles[1..][j]) {
          assert mdFiles[1..][j] == mdFiles[j + 1];
        }
      }
      CompileRecordAt(mdFiles[1..], contents, i - 1);
    }
  }

  /** A failed run names the first Markdown file, in listing order, that
      could not be read. */
  lemma {:induction false} CompileFailsAtFirstUnreadable(mdFiles: seq<string>, contents: map<string, string>)
    requires AllMarkdown(mdFiles)
    requires CompileRecords(mdFiles, contents).Failure?
    ensures exists i :: 0 <= i < |mdFiles| && mdFiles[i] == CompileRecords(mdFiles, contents).error &&
                        forall j :: 0 <= j < i ==> mdFiles[j] in contents
  {
    if mdFiles[0] !in contents {
      assert mdFiles[0] == CompileRecords(mdFiles, contents).error;
    } else {
      var tail := mdFiles[1..];
      assert AllMarkdown(tail) by {
        forall j | 0 <= j < |tail| ensures IsMarkdown(tail[j]) {
          assert tail[j] == mdFiles[j + 1];
        }
      }
      CompileFailsAtFirstUnreadable(tail, contents);
      var i :| 0 <= i < |tail| && tail[i] == CompileRecords(tail, contents).error &&
               forall j :: 0 <= j < i ==> tail[j] in contents;
      assert mdFiles[i + 1] == tail[i];
      assert forall j :: 1 <= j < i + 1 ==> mdFiles[j] == tail[j - 1];
    }
  }

  /** What a successful run produces, stated on the listing: one record per
      Markdown name in listing order, each carrying that name's slug and,
      apart from `slug`, exactly the file's frontmatter. */
  lemma CompileSpec(listing: seq<string>, contents: map<string, string>, i: nat)
    requires Compile(listing, contents).Success?
    requires i < |MarkdownFiles(listing)|
    ensures |Compile(listing, contents).value| == |MarkdownFiles(listing)|
    ensures var name := MarkdownFiles(listing)[i];
            var rec := Compile(listing, contents).value[i];
            && name in contents
            && SlugKey in rec && rec[SlugKey] == Slug(name)
            && rec.Keys == ParseFrontmatter(contents[name]).Keys + {SlugKey}
            && forall k :: k in rec && k != SlugKey ==> rec[k] == ParseFrontmatter(contents[name])[k]
  {
    CompileRecordAt(MarkdownFiles(listing), contents, i);
  }

  // ---------------------------------------------------------------------
  // Worked examples

  /** `key: "text"` or `key: 'text'` gives `text`, whatever `text` holds. */
  lemma ParseQuotedLine(key: string, q: char, text: string)
    requires key != [] && ':' !in key && IsTrimmed(key)
    requires IsQuote(q)
    ensures ParseLine(key + ": " + [q] + text + [q]) == Some(Entry(key, text))
  {
    var quoted := [q] + text + [q];
    var v := " " + quoted + [];
    assert key + ": " + [q] + text + [q] == key + ":" + v;
    assert ParseLine(key + ":" + v) == Some(Entry(Trim(key), StripQuotes(Trim(v)))) by {
      ParseLineFirstColon(key, v);
    }
    assert Trim(key) == key by { TrimmedUnchanged(key); }
    assert Trim(v) == quoted by {
      assert quoted[0] == q && quoted[|quoted| - 1] == q;
      TrimOfPadded(" ", quoted, []);
    }
    assert StripQuotes(quoted) == text by { StripOneLayer(q, text); }
  }

  /** A double-quoted value loses its quotes: `name: "Ada Lovelace"`. */
  lemma QuotedNameExample(line: string)
    requires line == "name: \"Ada Lovelace\""
    ensures ParseLine(line) == Some(Entry("name", "Ada Lovelace"))
  {
    var key, text := "name", "Ada Lovelace";
    assert line == key + ": " + ['"'] + text + ['"'];
    ParseQuotedLine(key, '"', text);
  }

  /** The line `key: value` for a plain key and a plain value: it is not a
      delimiter and it contributes exactly that entry. */
  lemma PlainEntryLine(key: string, value: string)
    requires key != [] && ':' !in key && '\n' !in key && IsTrimmed(key)
    requires value != [] && '\n' !in value && IsTrimmed(value) && !QuotedBy(value)
    ensures '\n' !in key + ": " + value
    ensures !IsDelimiter(key + ": " + value)
    ensures ParseLine(key + ": " + value) == Some(Entry(key, value))
  {
    PlainLineNotDelimiter(key, value);
    PlainLineEntry(key, value);
  }

  lemma PlainLineEntry(key: string, value: string)
    requires key != [] && ':' !in key && IsTrimmed(key)
    requires IsTrimmed(value) && !QuotedBy(value)
    ensures ParseLine(key + ": " + value) == Some(Entry(key, value))
  {
    var v := " " + value + [];
    assert key + ": " + value == key + ":" + v;
    assert ParseLine(key + ":" + v) == Some(Entry(Trim(key), StripQuotes(Trim(v)))) by {
      ParseLineFirstColon(key, v);
    }
    assert Trim(key) == key by { TrimmedUnchanged(key); }
    assert Trim(v) == value by { TrimOfPadded(" ", value, []); }
  }

  lemma PlainLineNotDelimiter(key: string, value: string)
    requires key != [] && '\n' !in key && IsTrimmed(key)
    requires value != [] && '\n' !in value && IsTrimmed(value)
    ensures '\n' !in key + ": " + value
    ensures !IsDelimiter(key + ": " + value)
  {
    var line := key + ": " + value;
    assert line[0] == key[0] && line[|line| - 1] == value[|value| - 1];
    TrimmedUnchanged(line);
    assert line[|key|] == ':';
    assert ':' !in Delimiter;
  }

  /** Lines of a two-entry block: the delimiters close it and nothing between them does. */
  lemma TwoEntryLines(lines: seq<string>, l1: string, l2: string)
    requires lines == [Delimiter, l1, l2, Delimiter]
    requires '\n' !in l1 && '\n' !in l2 && !IsDelimiter(l1) && !IsDelimiter(l2)
    ensures forall j :: 0 <= j < |lines| ==> '\n' !in lines[j]
    ensures IsDelimiter(lines[0]) && IsDelimiter(lines[3])
    ensures forall j :: 1 <= j < 3 ==> !IsDelimiter(lines[j])
    ensures lines[1] == l1 && lines[2] == l2
  {
    assert IsDelimiter(Delimiter) by { TrimmedUnchanged(Delimiter); }
    assert '\n' !in Delimiter;
    assert forall j :: 0 <= j < |lines| ==> lines[j] in {Delimiter, l1, l2};
  }

  /** A block of two plain entries between delimiters, followed by any text. */
  lemma TwoEntryBlock(k1: string, v1: string, k2: string, v2: string, rest: string)
    requires k1 != [] && ':' !in k1 && '\n' !in k1 && IsTrimmed(k1) && k1 != ProtoKey
    requires k2 != [] && ':' !in k2 && '\n' !in k2 && IsTrimmed(k2) && k2 != ProtoKey
    requires v1 != [] && '\n' !in v1 && IsTrimmed(v1) && !QuotedBy(v1)
    requires v2 != [] && '\n' !in v2 && IsTrimmed(v2) && !QuotedBy(v2)
    ensures ParseFrontmatter(Join([Delimiter, k1 + ": " + v1, k2 + ": " + v2, Delimiter]) + "\n" + rest)
         == map[k1 := v1, k2 := v2]
  {
    var l1, l2 := k1 + ": " + v1, k2 + ": " + v2;
    var lines := [Delimiter, l1, l2, Delimiter];
    PlainEntryLine(k1, v1);
    PlainEntryLine(k2, v2);
    assert ParseFrontmatter(Join(lines) + "\n" + rest) == Collect(lines, 1, 3) by {
      TwoEntryLines(lines, l1, l2);
      ParseClosedContent(lines, 3, rest);
    }
    CollectTwo(lines, k1, v1, k2, v2);
  }

  lemma CollectTwo(lines: seq<string>, k1: string, v1: string, k2: string, v2: string)
    requires |lines| >= 3
    requires ParseLine(lines[1]) == Some(Entry(k1, v1)) && ParseLine(lines[2]) == Some(Entry(k2, v2))
    requires k1 != ProtoKey && k2 != ProtoKey
    ensures Collect(lines, 1, 3) == map[k1 := v1][k2 := v2]
  {
    assert Collect(lines, 1, 2) == map[k1 := v1];
  }

  /** The two-file scenario, for any names and entries: a listing holding a
      Markdown file with a two-entry block, a non-Markdown file and a
      Markdown file without a block compiles to two records, in listing
      order; the first holds the two entries and its slug, the second only
      its slug. */
  lemma TwoStudentsScenario(a: string, other: string, b: string,
                            k1: string, v1: string, k2: string, v2: string,
                            body: string, plain: string, more: string)
    requires a != b && !IsMarkdown(other)
    requires k1 != [] && ':' !in k1 && '\n' !in k1 && IsTrimmed(k1) && k1 != ProtoKey
    requires k2 != [] && ':' !in k2 && '\n' !in k2 && IsTrimmed(k2) && k2 != ProtoKey
    requires v1 != [] && '\n' !in v1 && IsTrimmed(v1) && !QuotedBy(v1)
    requires v2 != [] && '\n' !in v2 && IsTrimmed(v2) && !QuotedBy(v2)
    requires '\n' !in plain && !IsDelimiter(plain)
    ensures var first := Join([Delimiter, k1 + ": " + v1, k2 + ": " + v2, Delimiter]) + "\n" + body;
            var contents := map[a + Extension := first, b + Extension := plain + "\n" + more];
            Compile([a + Extension, other, b + Extension], contents)
              == Success([map[k1 := v1, k2 := v2, SlugKey := a], map[SlugKey := b]])
  {
    var first := Join([Delimiter, k1 + ": " + v1, k2 + ": " + v2, Delimiter]) + "\n" + body;
    var an, bn := a + Extension, b + Extension;
    var contents := map[an := first, bn := plain + "\n" + more];
    var listing := [an, other, bn];
    SlugOfStem(a);
    SlugOfStem(b);
    assert an != bn by { assert an[..|a|] == a && bn[..|b|] == b; }
    assert MarkdownFiles(listing) == [an, bn] by {
      assert listing[1..][1..] == [bn] && [bn][1..] == [];
    }
    CompileTwo(an, bn, contents);
    assert ParseFrontmatter(first) == map[k1 := v1, k2 := v2] by {
      TwoEntryBlock(k1, v1, k2, v2, body);
    }
    assert ParseFrontmatter(plain + "\n" + more) == map[] by {
      NoOpeningDelimiter(plain, more);
    }
  }

  /** Reading one more file in front of a successful run adds its record in front. */
  lemma CompileRecordsCons(name: string, rest: seq<string>, contents: map<string, string>)
    requires IsMarkdown(name) && AllMarkdown(rest) && name in contents
    requires CompileRecords(rest, contents).Success?
    ensures AllMarkdown([name] + rest)
    ensures CompileRecords([name] + rest, contents)
         == Success([BuildRecord(name, contents[name])] + CompileRecords(rest, contents).value)
  {
    var all := [name] + rest;
    assert all[0] == name && all[1..] == rest;
    assert forall i :: 1 <= i < |all| ==> all[i] == rest[i - 1];
  }

  lemma CompileTwo(a: string, b: string, contents: map<string, string>)
    requires IsMarkdown(a) && IsMarkdown(b) && a in contents && b in contents
    ensures AllMarkdown([a, b])
    ensures CompileRecords([a, b], contents) == Success([BuildRecord(a, contents[a]), BuildRecord(b, contents[b])])
  {
    var ra, rb := BuildRecord(a, contents[a]), BuildRecord(b, contents[b]);
    assert CompileRecords([], contents) == Success([]);
    CompileRecordsCons(b, [], contents);
    assert [b] + [] == [b] && [rb] + [] == [rb];
    CompileRecordsCons(a, [b], contents);
    assert [a] + [b] == [a, b] && [ra] + [rb] == [ra, rb];
  }
}
