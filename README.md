# genox static site generator: a Dafny model of its core

genox turns a tree of Markdown files into a static HTML site. Each source file opens with a
YAML front-matter block between `---` lines. `index` walks the input directory and makes the
site: a dict from each Markdown file's relative path to its page context. A context is the
configured defaults, overridden by the file's metadata, with the body under `content`.
`build` goes over the site in insertion order. For each page it converts `content` from
Markdown to HTML in place, computes the output path (the page's path or, with a `slug`,
`basename(path)/slug`, under the output directory, with `.html` for the extension) and calls
`render`. `render` picks the layout template (adding `.html` if missing), never overwrites an
existing file, and otherwise writes the rendered template.

The model has six modules:

- `Values`: Python values as YAML yields them, as far as genox looks at them (`Value`), their truthiness, and `dict.get`. Floats, dates and timestamps are one case, `Other`, that keeps only whether the value is truthy.
- `PyStrings`: `str.strip`, `str.split`, `str.join`, `startswith` and `endswith`.
- `PosixPath`: `os.path.basename`, `os.path.join` and `os.path.splitext` for POSIX paths.
- `FrontMatter`: `extract_yaml`. It is a declarative reading, `Extract`, plus the
  line-by-line loop, `ExtractYaml`, proved equal to it.
- `Indexer`: `dir_ignored`, the site as an insertion-ordered dict (the `Site` class), and
  `index`. `Index` is a loop over the walked files proved against the fold `IndexSpec`.
- `Builder`: `render` on a file map (the `FileSystem` class) and `build`. `Build` is a loop
  that updates the site and the file system, proved against the fold `BuildFrom`.

The foreign pieces are parameters of the operations that use them:

- `yaml.load` is a function from text to a parsed value or a syntax error;
- `markdown2`'s converter is a function from text to text;
- the Jinja renderer is a function from a layout name and a context to text.

## Model

| member | source | states |
|---|---|---|
| PyStrings.StripTrimmed | genox.py:24 | `strip()` returns a string no longer than its input that neither starts nor ends with whitespace |
| PyStrings.StripPadded | genox.py:24 | whitespace around a trimmed string is exactly what `strip()` removes |
| PyStrings.StripEmptyIffAllSpace | genox.py:26 | a line strips to `''` if and only if every character is whitespace |
| PyStrings.Split | genox.py:21 | `split('\n')` yields at least one piece, and no piece holds the separator |
| PyStrings.JoinSplit | genox.py:21 | joining the pieces of a split with the separator gives back the text |
| PyStrings.SplitJoin | genox.py:37-38 | splitting the join of separator-free pieces gives back the pieces |
| PyStrings.SplitAround | genox.py:21 | splitting `a + sep + b` is splitting a followed by splitting b |
| PosixPath.RFind | genox.py:63 | the index of the last occurrence of a character, or -1 when it has none |
| PosixPath.BasenameSpec | genox.py:63 | `basename` is the slash-free suffix after the last `/` |
| PosixPath.PathJoin | genox.py:130-133 | `join` returns an absolute second part unchanged; otherwise the result starts with the first part; it always ends with the second part |
| PosixPath.SplitExtSpec | genox.py:109 | `splitext` parts concatenate back to the path; a non-empty extension is a `.` and then dot-free, slash-free text, shorter than the basename; a dot-free basename has no extension |
| PosixPath.SplitExtFound | genox.py:108-110 | `splitext` finds an extension iff the basename has a `.` after some non-dot character, so `post.md` has one and `.bashrc` and `..bashrc` have none |
| PosixPath.BasenameOfJoin | genox.py:130 | joining a slash-free name onto any directory gives a path whose basename is that name |
| PosixPath.RootAfterSlash | genox.py:134 | the root (the path without its extension) of `a/b` is `a/` followed by the root of b |
| PosixPath.RootStartsWith | genox.py:134 | dropping the extension keeps a leading `/` and adds none |
| PosixPath.RootOfJoin | genox.py:133-134 | for any a and b, the root of `join(a, b)` is `join(a, root of b)`: the extension comes from b alone |
| FrontMatter.FirstDelimiter | genox.py:28-30 | the index of the first delimiter line; no line before it is a delimiter |
| FrontMatter.NonBlank | genox.py:26-32 | the kept metadata lines: a line is in the result iff it is a non-blank line of the input; the result is all the lines if none is blank, and empty if all are |
| FrontMatter.NonBlankAppend | genox.py:26-32 | dropping blank lines distributes over concatenation, so the kept lines keep their order |
| FrontMatter.OrEmpty | genox.py:39 | `metadata or {}`: a truthy value is kept and a falsy one becomes the empty mapping |
| FrontMatter.Extract | genox.py:11-43 | fails with InvalidFirstLine exactly when the first line does not strip to `---`, so always on empty text; loaded metadata is truthy or `{}`; without a closing delimiter the body is empty |
| FrontMatter.ExtractYaml | genox.py:16-43 | the loop with its `first_line`/`metadata_parsed` flags returns what `Extract` describes, error cases included |
| FrontMatter.ScanMatchesSpec | genox.py:21-34 | after the first line: the flag is set iff a delimiter occurs; metadata is the non-blank lines before the first delimiter, in order; content is every line after it, blank and `---` lines included |
| FrontMatter.ExtractRoundTrip | genox.py:11-43 | `"---\n" + M + "\n---\n" + B`, with M's lines neither blank nor delimiters, gives exactly the loaded M as metadata and B as the body |
| Indexer.DirIgnored | genox.py:62-63 | true iff the directory's basename starts with some pattern |
| Indexer.DirIgnoredByName | genox.py:63 | only the last path component decides, wherever the directory sits |
| Indexer.EmptyPatternIgnoresAll | genox.py:63 | an empty pattern ignores every directory |
| Indexer.SiteValue.Put | genox.py:117-119 | dict assignment: a new key goes at the end of the key order and a re-assigned key keeps its place; the key gets the value, every other entry is kept, and a well-formed ordered dict stays well-formed |
| Indexer.Site.Put | genox.py:117 | the in-place dict assignment leaves the site equal to `SiteValue.Put` applied to the old site |
| Indexer.NewEntry | genox.py:117-119 | the entry's keys are the defaults', the metadata's and `content`; `content` is the body; metadata overrides the defaults, and defaults fill in the rest |
| Indexer.Index | genox.py:98-121 | the walk loop returns a fresh site equal to the fold `IndexSpec`, or the error that fold stops with |
| Indexer.IndexFile | genox.py:106-119 | one walked file: non-Markdown and unparsable files leave the site unchanged; a parsed file is added; a non-mapping metadata value is an error |
| Indexer.AddPage | genox.py:117-119 | a mapping is layered into a new entry under the file's path; any other metadata value is MetadataNotMapping |
| Indexer.IndexValid | genox.py:99-121 | the site is a well-formed ordered dict: its key order lists distinct keys, the same ones as its map |
| Indexer.FirstKept | genox.py:106-119 | the position of the first kept file with a given path in the walk: that file is kept and has the path, and no earlier file is both |
| Indexer.IndexOrder | genox.py:99-121 | the site's key order is the order in which the paths first appear among the kept files of the walk |
| Indexer.IndexSucceeds | genox.py:111-119 | `index` succeeds iff every Markdown file whose front matter parses has mapping metadata |
| Indexer.IndexErrorNamesFile | genox.py:118 | a failure names a parsed Markdown file whose metadata is not a mapping |
| Indexer.IndexKeys | genox.py:111-119 | the site's keys are exactly the paths of the Markdown files whose front matter parsed |
| Indexer.IndexEntries | genox.py:117-119 | each page is the entry of the last parsed file with its path: defaults overridden by metadata, with the body as `content` |
| Indexer.IndexPagesHaveContent | genox.py:119 | every page's `content` is text |
| Builder.LayoutFile | genox.py:86-88 | the layout file ends with `.html`; it is the layout itself iff that already ends with `.html`, and otherwise the layout with `.html` appended |
| Builder.LayoutFileIdempotent | genox.py:87-88 | applying the suffix rule twice is applying it once |
| Builder.RenderSpec | genox.py:85-95 | a missing or non-text layout is an error; otherwise the file map gains dst and keeps every file; if dst was absent, it now holds the renderer's output |
| Builder.Render | genox.py:85-95 | the method changes the file system as `RenderSpec` says, and not at all on error |
| Builder.HtmlPath | genox.py:134 | the extension-replaced path ends with `.html` |
| Builder.OutPath | genox.py:128-134 | fails exactly for a truthy non-text slug; any output path ends with `.html` |
| Builder.OutPathWithoutSlug | genox.py:131-134 | with no or an empty slug, for any dst, the output is `join(dst, <fpath without its extension>) + '.html'`; for a relative fpath under a dst that is non-empty and has no trailing `/`, that is `dst/<fpath without its extension>.html` |
| Builder.OutPathWithSlug | genox.py:129-134 | with a non-empty text slug, for any dst, the output is `join(dst, join(basename(fpath), <slug without its extension>)) + '.html'`; with a relative slug and a non-empty basename, the inner join is `<basename>/<slug root>`, and under a dst that is non-empty and has no trailing `/` the output is `dst/<basename>/<slug root>.html` |
| Builder.ConvertContent | genox.py:127 | fails exactly when `content` is not text; otherwise only `content` changes, to md2html of the old content |
| Builder.WritePage | genox.py:128-135 | the path and render step succeeds iff the slug and the layout are usable; the file map then gains the output path and keeps every existing file as it was; the output path holds the rendered layout unless a file was already there; any added file is `.html`; the errors are the slug and layout ones |
| Builder.BuildPage | genox.py:125-135 | one iteration keeps the site's keys and changes no other page |
| Builder.BuildPageFiles | genox.py:89-95 | one iteration keeps every existing file as it was and adds only `.html` files |
| Builder.BuildPageWrites | genox.py:127-135 | one iteration goes through iff the page has a file to write (`PageFile`); it then adds exactly that path, holding the rendered text unless a file was already there; on an exception the file map is unchanged |
| Builder.BuildFrom | genox.py:125-135 | the loop over the site's keys keeps the site's keys |
| Builder.Build | genox.py:124-135 | the loop leaves the site's contexts, the file system and the exception as `BuildFrom` says, key order unchanged |
| Builder.BuildOne | genox.py:126-135 | one iteration updates the site and the file system as `BuildPage` says |
| Builder.BuildNeverOverwrites | genox.py:89-92 | no file that existed before `build` is changed or removed |
| Builder.BuildWritesHtml | genox.py:134-135 | every file `build` adds is an `.html` file |
| Builder.BuildLeavesOthers | genox.py:125-127 | pages outside the keys gone over are unchanged, even when `build` stops early |
| Builder.BuildWritesEveryPage | genox.py:125-135 | after a build that finishes over distinct keys, every page's output path is in the file map; a path that was free and that no earlier page claimed holds that page's rendered layout, so the first page to claim a path keeps it |
| Builder.BuildConvertsContent | genox.py:127 | a build that finishes over distinct keys leaves each page holding md2html of its old content |
| Builder.BuildContentAlwaysText | genox.py:127 | when every page's content is text, `build` never stops on the content conversion |
| Builder.IndexedSiteBuilds | genox.py:119-127 | every key of an indexed site is one of its pages, and building it never stops on the content conversion |

## Left out

- The YAML loader, the Markdown converter and the Jinja renderer are parameters. Their own behaviour is not modelled, and the renderer cannot raise here.
- `get_jinja_renderer` and the `datetimeformat` filter (genox.py:72-82) are a thin wrapper over the template library.
- `rebuild_tree_hardlinks` (genox.py:66-69), `main` and the command line (genox.py:138-160): file copying, config loading, timing, logging and printing.
- `os.walk` and `os.path.relpath`: the walk is a given sequence of files, each with its path relative to the input directory and its text. The extension is taken from the basename of that path, the file name `os.walk` yields.
- File reading errors, and writing under a directory that does not exist. The output tree is a map from paths to text, so it has no directories, and `os.path.isfile` is membership in that map. The next two lines say what this hides for slugged pages.
- Builder.OutPathWithSlug: the lemma states the path genox.py:130-134 computes, but under `main` nothing can be written there. `main` builds the output tree as a hard-link copy of the input tree that leaves out every name ending in a Markdown extension, directories included (genox.py:69). A page's `basename(fpath)` always ends in one of those extensions (genox.py:108-110), so `dst/<basename(fpath)>` never exists. So every page with a non-empty relative text slug makes `open(dst, 'w')` (genox.py:93) raise FileNotFoundError, and `build` stops there. The model writes that page instead and goes on.
- Builder.BuildWritesEveryPage: for the same reason, the source finishes a build that this lemma covers only when no page has a non-empty relative text slug. With such a page, the source stops at the first one, where the model writes it and continues.
- `render`'s printed messages and its log line. `src` appears only in its error value.
- `extract_yaml` raises the undefined `MetaParseException`, which is really a `NameError`. Both that and a YAML error are one failure that `index` catches and skips.
- Indexer.AddPage: `dict.update` also accepts a list of key-value pairs. Any non-mapping metadata is treated as the error `update` raises for most such values.
- YAML mappings with non-text keys: a `Value` mapping has text keys.
- YAML floats, dates and timestamps: all of them are `Value.Other`, which keeps only their truthiness. genox tests metadata values only for truthiness and for being text or a mapping, so they behave the same there, but the value itself is not kept for the renderer.
- Unicode beyond `strip()`: `PyStrings.Whitespace` lists the 29 characters `str.strip()` removes, and nothing else in the core depends on Unicode.
- The slug path uses `basename(fpath)` as written (genox.py:130), not the page's directory. The model computes that path, but as the lines above say, it does not model the write there failing.
- `config['defaults']` is passed by value, so the model cannot show that `index` does not change it. In the source, `copy()` (genox.py:117) gives the same guarantee.
- `dir_ignored`'s only caller is commented out (genox.py:102-104), so `DirIgnored` is not used by `Index`.
