# Student frontmatter compiler, modelled in Dafny

The site's build script `scripts/compile-students.js` turns a folder of
Markdown student profiles into one JSON array. Here is what it does:

- It lists the folder and keeps the names that end in `.md`.
- It reads each file and parses the `---`-delimited frontmatter block at the head of the file:
  - Each `key: value` line between the opening and closing delimiters becomes a property.
  - The key and the value are trimmed.
  - One pair of matching quotes is removed from the value.
- It sets `slug` to the file name without its `.md`.
- It writes the array out.

This project models the parser and the record-building pipeline and proves
what they guarantee.

The model has four modules:

- `Wrappers` holds `Option` and `Result`.
- `JsString` models the JavaScript string operations the script uses: `trim`, `split('\n')`, `indexOf` and `endsWith`. It proves that `trim` leaves exactly a trimmed infix, and that `split` and `join` are inverse.
- `Frontmatter` models `parseFrontmatter`:
  - `ParseFrontmatter` is the specification, built as a fold (`Collect`) over the lines between the delimiters.
  - `ParseFrontmatterScan` is the source's own `while` loop over those lines, proved equal to the specification.
  - The lemmas state what the resulting object holds:
    - last write wins;
    - the closing delimiter ends the block;
    - text without an opening delimiter gives `{}`;
    - exactly one quote layer is removed;
    - `__proto__` is never stored.
- `Compiler` models the body of `main`, which filters the listing, builds one record per file and attaches the slug. A file that cannot be read aborts the run, which the model expresses as a `Result`.

Three edge cases of the code, as the model states them:

- A file named exactly `.md` gets an empty slug, because `path.basename('.md', '.md')` is `''`; `Compiler.SlugEmptyIff` states this.
- A value that is a single quote character both starts and ends with that quote. `slice(1, -1)` turns it into the empty string, and `Frontmatter.StripQuotes` does the same.
- Assigning a string to the `__proto__` property of a plain object changes nothing. `Frontmatter.Assign` therefore does not store that key.

Strings are sequences of Unicode code points, whereas JavaScript indexes
UTF-16 code units, so `indexOf(':')` on `"😀:x"` is 2 in JavaScript and 1
here. The script uses that index only to test it against 0 and to slice the
line before and after the colon; those slices hold the same characters under
either indexing, since the colon, the quotes, the newline and the whitespace
`trim` removes all lie in the Basic Multilingual Plane. So every key and value the
script computes agrees with the model (lone surrogates aside, see below).

## Model

| member | source | states |
|---|---|---|
| JsString.TrimOfPadded | scripts/compile-students.js:18-25 | `trim` (`JsString.Trim`) removes exactly the surrounding whitespace: it returns `m` from whitespace + `m` + whitespace, for any `m` that neither starts nor ends in whitespace; this row stands for `JsString.Trim` |
| JsString.TrimmedUnchanged | scripts/compile-students.js:24-25 | a string that neither starts nor ends in whitespace is unchanged by `trim` |
| JsString.TrimIsTrimmed | scripts/compile-students.js:24-25 | the result of `trim` neither starts nor ends in whitespace, so trimming twice equals trimming once |
| JsString.IndexOf | scripts/compile-students.js:22 | `indexOf(':')` gives -1 exactly when the line has no colon; otherwise it gives the position of a colon with no colon before it |
| JsString.Split | scripts/compile-students.js:17 | `split('\n')` yields at least one piece, and no piece contains a newline |
| JsString.JoinSplit | scripts/compile-students.js:17 | joining the pieces with newlines gives back the original text |
| JsString.SplitJoin | scripts/compile-students.js:17 | splitting newline-free lines joined with newlines gives back exactly those lines |
| JsString.SplitAppend | scripts/compile-students.js:17 | the pieces of `a + "\n" + b` are the pieces of `a` followed by the pieces of `b` |
| Frontmatter.StripQuotes | scripts/compile-students.js:27-29 | a value that starts and ends with the same quote loses exactly its first and last characters (a lone quote becomes empty); any other value is unchanged |
| Frontmatter.StripOneLayer | scripts/compile-students.js:27-28 | only one layer of quotes comes off: `q + s + q` gives back `s`, whatever `s` holds |
| Frontmatter.MismatchedQuotesKept | scripts/compile-students.js:27 | a value opened by one kind of quote and closed by the other keeps both |
| Frontmatter.DoubleQuotedOnce | scripts/compile-students.js:27-28 | `""a""` becomes `"a"` |
| Frontmatter.ParseLine | scripts/compile-students.js:21-25 | a line yields an entry exactly when it has a colon that is not its first character; the key has no colon and no surrounding whitespace |
| Frontmatter.KeyBefore | scripts/compile-students.js:24 | the key, the trimmed text before the first colon, holds no colon and is trimmed |
| Frontmatter.ParseLineFirstColon | scripts/compile-students.js:22-28 | `k:v` with a non-empty colon-free `k` gives the key `trim(k)` and the value `trim(v)` unquoted, so the value may contain further colons; this row stands for `Frontmatter.ValueAfter` |
| Frontmatter.Assign | scripts/compile-students.js:30 | assigning sets or replaces the key, except `__proto__`, which leaves the object unchanged |
| Frontmatter.ApplyEffect | scripts/compile-students.js:23-31 | one scanned line (`Frontmatter.Apply`) adds or replaces exactly the key it stores and keeps every other key; a line without an entry, or with key `__proto__`, changes nothing; this row stands for `Frontmatter.Apply` |
| Frontmatter.Collect | scripts/compile-students.js:20-33 | the object built from a range of lines never holds `__proto__`, and every key in it is colon-free and trimmed |
| Frontmatter.CloseIndex | scripts/compile-students.js:20 | the scan stops at the first line that trims to `---` after the opener, or at the end of the lines |
| Frontmatter.ParseFrontmatter | scripts/compile-students.js:15-36 | text whose first line does not trim to `---` gives `{}`; no result holds `__proto__`; every key is colon-free and trimmed |
| Frontmatter.ParseFrontmatterScan | scripts/compile-students.js:15-36 | the source's loop returns exactly `ParseFrontmatter` of the text |
| Frontmatter.LastContributor | scripts/compile-students.js:30 | finds the last line in a range that stores a key: that line stores the key, and no later line in the range does |
| Frontmatter.CollectLastWriteWins | scripts/compile-students.js:20-33 | a key is in the object exactly when some scanned line stores it, and its value is the value of the last such line |
| Frontmatter.CollectFrame | scripts/compile-students.js:20-33 | the object depends only on the lines inside the scanned range |
| Frontmatter.ClosingDelimiterStops | scripts/compile-students.js:18-33 | lines after the first closing delimiter, whatever they are, do not change the result of `Frontmatter.ParseLines` (the opener test plus the scan); with `UnclosedScansAll` and `NoOpeningDelimiter` this row stands for `ParseLines` |
| Frontmatter.UnclosedScansAll | scripts/compile-students.js:19-20 | with no closing delimiter, every line after the opener is scanned |
| Frontmatter.ParseClosedContent | scripts/compile-students.js:17-20 | for text made of an opener, body lines, a closer and anything after, only the body lines count |
| Frontmatter.ParseUnclosedContent | scripts/compile-students.js:17-20 | for text that opens a block and never closes it, every line after the opener counts |
| Frontmatter.NoOpeningDelimiter | scripts/compile-students.js:18 | text whose first line does not trim to `---` has no frontmatter, whatever follows |
| Frontmatter.EmptyContent | scripts/compile-students.js:17-18 | the empty file gives `{}` |
| Frontmatter.DelimiterWithBomAndCr | scripts/compile-students.js:18-20 | a byte order mark before `---` and a carriage return after it still make a delimiter line (`Frontmatter.IsDelimiter`, `trim() === '---'`); with `TrimOfPadded` this row stands for `IsDelimiter` |
| Compiler.MarkdownFiles | scripts/compile-students.js:42 | the filter keeps exactly the names that end in `.md`, and never yields more names than the listing has |
| Compiler.MarkdownFilesAppend | scripts/compile-students.js:42 | filtering keeps listing order: it distributes over concatenation |
| Compiler.MarkdownFilesKeepsMarkdown | scripts/compile-students.js:42 | a listing of Markdown names passes the filter unchanged, and a name without `.md` never passes |
| Compiler.Slug | scripts/compile-students.js:51 | the slug followed by `.md` is the file name |
| Compiler.SlugOfStem | scripts/compile-students.js:42-51 | every name `stem + ".md"` passes `endsWith('.md')` and its slug is `stem`; with `Slug`'s contract, a name passes exactly when it is some stem followed by `.md`, so this row stands for `JsString.EndsWith` and `Compiler.IsMarkdown` |
| Compiler.SlugEmptyIff | scripts/compile-students.js:51 | the slug is empty exactly for the file named `.md` |
| Compiler.BuildRecord | scripts/compile-students.js:48-53 | the record has a `slug` that, followed by `.md`, is the file name; its keys are the frontmatter keys plus `slug`; every other key keeps its frontmatter value, and a `slug` from the file is replaced |
| Compiler.NoFrontmatterOnlySlug | scripts/compile-students.js:48-51 | a file without a frontmatter block gives a record whose only key is `slug` |
| Compiler.CompileRecords | scripts/compile-students.js:45-54 | the run succeeds exactly when every Markdown file can be read, and then gives one record per file; a failure names a Markdown file that cannot be read |
| Compiler.Compile | scripts/compile-students.js:42-54 | the whole filter-then-map pipeline succeeds exactly when every Markdown name of the listing can be read, then yields one record per Markdown name; a failure names a Markdown name of the listing that cannot be read |
| Compiler.CompileRecordAt | scripts/compile-students.js:45-53 | record `i` of a successful run is built from the `i`-th Markdown name and that file's contents |
| Compiler.CompileFailsAtFirstUnreadable | scripts/compile-students.js:45-47 | a failed run names the first unreadable Markdown file in listing order |
| Compiler.CompileSpec | scripts/compile-students.js:42-54 | on the listing: one record per Markdown name, in order, each with its own slug and, apart from `slug`, exactly its file's frontmatter |
| Compiler.ParseQuotedLine | scripts/compile-students.js:22-30 | `key: "text"` or `key: 'text'` gives the entry `key` → `text` |
| Compiler.QuotedNameExample | scripts/compile-students.js:22-30 | `name: "Ada Lovelace"` gives `name` → `Ada Lovelace` |
| Compiler.PlainEntryLine | scripts/compile-students.js:20-30 | a plain `key: value` line is not a delimiter and gives exactly that entry |
| Compiler.TwoEntryBlock | scripts/compile-students.js:15-36 | a block of two plain entries between delimiters, followed by any text, parses to exactly those two entries |
| Compiler.TwoStudentsScenario | scripts/compile-students.js:42-54 | a listing with a Markdown file holding two entries, a non-Markdown file and a Markdown file of several lines whose first line is not a delimiter compiles to two records, in order, carrying those entries and the two slugs |

## Left out

- File system access is not modelled as I/O. `readdirSync` is an input sequence of names in the order the platform lists them, and `readFileSync` is a lookup in a map from names to contents. A name missing from the map stands for any read that throws, for example a directory whose name ends in `.md`.
- A failing `readdirSync` is not modelled. It aborts the run before any file is read.
- `mkdirSync`, `existsSync` and `writeFileSync` for the output are not modelled. They touch only the file system.
- `JSON.stringify` is not modelled. The model produces the list of records, not their JSON text.
- The property order of JavaScript objects is not modelled, because records are finite maps. This covers where `slug` appears in the output, and that integer-like keys come first.
- Console logging, and `process.exit(1)` in the error handler, are not modelled. The error path is the `Failure` of `Compiler.CompileRecords`.
- `path.join` with the students folder is not modelled. `path.basename` is modelled only on directory entry names, which hold no path separator, so it only removes the trailing `.md`.
- Lone UTF-16 surrogates in file text are not modelled, because Dafny characters are Unicode scalar values.
- The site's widgets, `eleventy.config.js` and the client-side `site.js` are not part of this model.
