/**
 * `index`: walk the source tree and build the site, a dict from each
 * Markdown file's path (relative to the input directory) to its page
 * context; and `dir_ignored`, the directory filter kept beside it.
 */
module Indexer {
  import opened Values
  import opened PyStrings
  import opened PosixPath
  import opened FrontMatter

  /** `dir_ignored(directory, patterns)`: the directory's own name starts with one of the patterns. */
  function DirIgnored(directory: string, patterns: seq<string>): (r: bool)
    ensures r <==> exists i :: 0 <= i < |patterns| && StartsWith(Basename(directory), patterns[i])
  {
    if patterns == [] then false
    else if StartsWith(Basename(directory), patterns[0]) then true
    else
      var r := DirIgnored(directory, patterns[1..]);
      assert forall i :: 1 <= i < |patterns| ==> patterns[i] == patterns[1..][i - 1];
      r
  }

  /** Only the last component counts: a directory is ignored wherever it sits. */
  lemma {:induction false} DirIgnoredByName(parent: string, name: string, patterns: seq<string>)
    requires '/' !in name
    ensures DirIgnored(PathJoin(parent, name), patterns) == DirIgnored(name, patterns)
  {
    BasenameOfJoin(parent, name);
    BasenameOfJoin("", name);
    assert PathJoin("", name) == name;
  }

  /** An empty pattern is a prefix of every name, so it ignores every directory. */
  lemma {:induction false} EmptyPatternIgnoresAll(directory: string, patterns: seq<string>)
    requires "" in patterns
    ensures DirIgnored(directory, patterns)
  {
    var i :| 0 <= i < |patterns| && patterns[i] == "";
    assert StartsWith(Basename(directory), patterns[i]);
  }

  /** One file the walk yields: its path relative to the input directory, and its text. */
  datatype WalkedFile = WalkedFile(relpath: string, text: string)

  /** `index` stops with an exception when loaded metadata is not a mapping (`dict.update` rejects it). */
  datatype IndexError = MetadataNotMapping(relpath: string)

  /**
   * A Python dict from paths to page contexts: the keys in insertion order
   * and the entries. Re-assigning a key keeps its place.
   */
  datatype SiteValue = SiteValue(order: seq<string>, pages: map<string, Context>)
  {
    ghost predicate Valid()
    {
      (forall i, j :: 0 <= i < j < |order| ==> order[i] != order[j]) &&
      (forall k :: k in pages <==> k in order)
    }

    /** `site[key] = ctx` */
    function Put(key: string, ctx: Context): (r: SiteValue)
      ensures r.order == if key in pages then order else order + [key]
      ensures r.pages.Keys == pages.Keys + {key} && r.pages[key] == ctx
      ensures forall k :: k in pages && k != key ==> r.pages[k] == pages[k]
      ensures Valid() ==> r.Valid()
    {
      if key in pages then SiteValue(order, pages[key := ctx])
      else SiteValue(order + [key], pages[key := ctx])
    }
  }

  /** The mutable site dict that `index` fills and `build` updates. */
  class Site {
    var order: seq<string>
    var pages: map<string, Context>

    constructor ()
      ensures order == [] && pages == map[]
    {
      order := [];
      pages := map[];
    }

    function Value(): SiteValue
      reads this
    {
      SiteValue(order, pages)
    }

    method Put(key: string, ctx: Context)
      modifies this
      ensures Value() == old(Value()).Put(key, ctx)
    {
      if key !in pages {
        order := order + [key];
      }
      pages := pages[key := ctx];
    }
  }

  /** The file's extension is one of the Markdown extensions. */
  predicate IsContent(f: WalkedFile, mdExt: seq<string>)
  {
    SplitExt(Basename(f.relpath)).1 in mdExt
  }

  /**
   * A new page context: a copy of the defaults, updated with the metadata,
   * then `content` set to the body.
   */
  function NewEntry(defaults: Context, metadata: map<string, Value>, body: string): (r: Context)
    ensures r.Keys == defaults.Keys + metadata.Keys + {"content"}
    ensures r["content"] == Str(body)
    ensures forall k :: k in metadata && k != "content" ==> r[k] == metadata[k]
    ensures forall k :: k in defaults && k !in metadata && k != "content" ==> r[k] == defaults[k]
  {
    (defaults + metadata)["content" := Str(body)]
  }

  /** What `index` makes of one walked file before it touches the site. */
  datatype FileOutcome =
    | Ignored          // not a Markdown file
    | Skipped          // front matter that does not parse: reported and skipped
    | Loaded(doc: Document)

  type Loader = WalkedFile -> FileOutcome

  /** The outcome `index` gives a file: the extension test, then `extract_yaml` with the given YAML loader. */
  function LoadWith(mdExt: seq<string>, yaml: string -> YamlDoc): Loader
  {
    f => if !IsContent(f, mdExt) then Ignored
         else match Extract(f.text, yaml)
           case Failure(_) => Skipped
           case Success(doc) => Loaded(doc)
  }

  /** A file `index` does not skip: a Markdown file whose front matter parsed. */
  predicate Kept(f: WalkedFile, load: Loader)
  {
    load(f).Loaded?
  }

  /** A kept file whose metadata is a mapping, so that its entry can be built. */
  predicate Loads(f: WalkedFile, load: Loader)
  {
    Kept(f, load) && load(f).doc.metadata.Mapping?
  }

  /** The page context `index` stores for a file that loads. */
  function EntryOf(f: WalkedFile, defaults: Context, load: Loader): Context
    requires Loads(f, load)
  {
    var doc := load(f).doc;
    NewEntry(defaults, doc.metadata.entries, doc.body)
  }

  /** What one walked file does to the site. */
  function IndexStep(site: SiteValue, f: WalkedFile, defaults: Context, load: Loader): Result<SiteValue, IndexError>
  {
    match load(f)
    case Ignored => Success(site)
    case Skipped => Success(site)
    case Loaded(doc) =>
      match doc.metadata
      case Mapping(m) => Success(site.Put(f.relpath, NewEntry(defaults, m, doc.body)))
      case _ => Failure(MetadataNotMapping(f.relpath))
  }

  /** `index` over the walked files in walk order, stopping at the first error. */
  function IndexSpec(walk: seq<WalkedFile>, defaults: Context, load: Loader)
    : Result<SiteValue, IndexError>
  {
    if walk == [] then Success(SiteValue([], map[]))
    else match IndexSpec(walk[..|walk| - 1], defaults, load)
      case Failure(e) => Failure(e)
      case Success(site) => IndexStep(site, walk[|walk| - 1], defaults, load)
  }

  /**
   * `index(directory, md_ext, config)` with the walk given as a sequence of
   * files and `config['defaults']` as `defaults`.
   */
  method Index(walk: seq<WalkedFile>, mdExt: seq<string>, defaults: Context, yaml: string -> YamlDoc)
    returns (r: Result<Site, IndexError>)
    ensures r.Success? ==> fresh(r.value) && IndexSpec(walk, defaults, LoadWith(mdExt, yaml)) == Success(r.value.Value())
    ensures r.Failure? ==> IndexSpec(walk, defaults, LoadWith(mdExt, yaml)) == Failure(r.error)
  {
    ghost var load := LoadWith(mdExt, yaml);
    var site := new Site();
    for i := 0 to |walk|
      invariant fresh(site)
      invariant IndexSpec(walk[..i], defaults, load) == Success(site.Value())
    {
      IndexSnoc(walk, i, defaults, load);
      var err := IndexFile(site, walk[i], mdExt, defaults, yaml);
      if err.Some? {
        IndexFailurePersists(walk, i + 1, defaults, load);
        return Failure(err.value);
      }
    }
    assert walk[..|walk|] == walk;
    return Success(site);
  }

  /** The body of `index`'s inner loop: one walked file. */
  method IndexFile(site: Site, f: WalkedFile, mdExt: seq<string>, defaults: Context, yaml: string -> YamlDoc)
    returns (err: Option<IndexError>)
    modifies site
    ensures match IndexStep(old(site.Value()), f, defaults, LoadWith(mdExt, yaml))
      case Success(s) => err.None? && site.Value() == s
      case Failure(e) => err == Some(e)
  {
    var (_, ext) := SplitExt(Basename(f.relpath));
    if ext in mdExt {
      var parsed := ExtractYaml(f.text, yaml);
      LoadWithContent(mdExt, yaml, f);
      if parsed.Success? {
        err := AddPage(site, f.relpath, parsed.value, defaults);
      } else {
        err := None;
      }
    } else {
      LoadWithOther(mdExt, yaml, f);
      err := None;
    }
  }

  /** `site[relpath] = defaults.copy()`, `.update(metadata)`, `['content'] = body`. */
  method AddPage(site: Site, relpath: string, doc: Document, defaults: Context) returns (err: Option<IndexError>)
    modifies site
    ensures match doc.metadata
      case Mapping(m) => err.None? && site.Value() == old(site.Value()).Put(relpath, NewEntry(defaults, m, doc.body))
      case _ => err == Some(MetadataNotMapping(relpath))
  {
    if !doc.metadata.Mapping? {
      return Some(MetadataNotMapping(relpath));
    }
    site.Put(relpath, NewEntry(defaults, doc.metadata.entries, doc.body));
    return None;
  }

  /** The walk up to file i+1 is the walk up to file i followed by one step. */
  lemma {:induction false} IndexSnoc(walk: seq<WalkedFile>, i: nat, defaults: Context, load: Loader)
    requires i < |walk|
    ensures IndexSpec(walk[..i + 1], defaults, load)
      == match IndexSpec(walk[..i], defaults, load)
         case Failure(e) => Failure(e)
         case Success(site) => IndexStep(site, walk[i], defaults, load)
  {
    assert walk[..i + 1][..i] == walk[..i];
  }

  /** A Markdown file's outcome is what `extract_yaml` makes of its text. */
  lemma {:induction false} LoadWithContent(mdExt: seq<string>, yaml: string -> YamlDoc, f: WalkedFile)
    requires IsContent(f, mdExt)
    ensures LoadWith(mdExt, yaml)(f) == match Extract(f.text, yaml)
      case Failure(_) => Skipped
      case Success(doc) => Loaded(doc)
  {
  }

  /** Any other file is ignored. */
  lemma {:induction false} LoadWithOther(mdExt: seq<string>, yaml: string -> YamlDoc, f: WalkedFile)
    requires !IsContent(f, mdExt)
    ensures LoadWith(mdExt, yaml)(f) == Ignored
  {
  }

  /** Once a prefix of the walk has failed, the whole walk fails with the same error. */
  lemma {:induction false} IndexFailurePersists(walk: seq<WalkedFile>, n: nat, defaults: Context, load: Loader)
    requires n <= |walk|
    requires IndexSpec(walk[..n], defaults, load).Failure?
    ensures IndexSpec(walk, defaults, load) == IndexSpec(walk[..n], defaults, load)
    decreases |walk| - n
  {
    if n < |walk| {
      var init := walk[..|walk| - 1];
      assert init[..n] == walk[..n];
      IndexFailurePersists(init, n, defaults, load);
    } else {
      assert walk[..n] == walk;
    }
  }

  /** The site `index` returns is a well-formed dict: distinct keys, the same ones as its map. */
  lemma {:induction false} IndexValid(walk: seq<WalkedFile>, defaults: Context, load: Loader)
    ensures IndexSpec(walk, defaults, load).Success? ==> IndexSpec(walk, defaults, load).value.Valid()
    decreases |walk|
  {
    if walk != [] {
      IndexValid(walk[..|walk| - 1], defaults, load);
    }
  }

  /** The position of the first kept file with path k in the walk, or |walk| when there is none. */
  function FirstKept(walk: seq<WalkedFile>, k: string, load: Loader): (n: nat)
    ensures n <= |walk|
    ensures n < |walk| ==> Kept(walk[n], load) && walk[n].relpath == k
    ensures forall j :: 0 <= j < n ==> !(Kept(walk[j], load) && walk[j].relpath == k)
    decreases |walk|
  {
    if walk == [] then 0
    else
      var init, last := walk[..|walk| - 1], walk[|walk| - 1];
      assert forall j :: 0 <= j < |init| ==> init[j] == walk[j];
      var m := FirstKept(init, k, load);
      if m < |init| then m
      else if Kept(last, load) && last.relpath == k then |init|
      else |walk|
  }

  /**
   * The site's keys come in the order their paths first appear among the
   * kept files of the walk: a new key goes last, a re-assigned key keeps
   * its place.
   */
  lemma {:induction false} IndexOrder(walk: seq<WalkedFile>, defaults: Context, load: Loader)
    ensures IndexSpec(walk, defaults, load).Success? ==>
      var order := IndexSpec(walk, defaults, load).value.order;
      (forall a :: 0 <= a < |order| ==> FirstKept(walk, order[a], load) < |walk|)
      && (forall a, b :: 0 <= a < b < |order| ==> FirstKept(walk, order[a], load) < FirstKept(walk, order[b], load))
    decreases |walk|
  {
    if walk != [] && IndexSpec(walk, defaults, load).Success? {
      var init, last := walk[..|walk| - 1], walk[|walk| - 1];
      IndexOrder(init, defaults, load);
      assert IndexSpec(init, defaults, load).Success?;
      var site := IndexSpec(init, defaults, load).value;
      var order := IndexSpec(walk, defaults, load).value.order;
      if order != site.order {
        IndexKeys(init, defaults, load);
        assert last.relpath !in site.pages && order == site.order + [last.relpath];
        assert FirstKept(init, last.relpath, load) == |init|;
      }
      OrderStep(walk, site.order, order, load);
    }
  }

  /** Keeping the order, or appending the path of a kept last file seen for the first time, keeps the order sorted by first kept position. */
  lemma {:induction false} OrderStep(walk: seq<WalkedFile>, before: seq<string>, after: seq<string>, load: Loader)
    requires walk != []
    requires var init := walk[..|walk| - 1];
      (forall a :: 0 <= a < |before| ==> FirstKept(init, before[a], load) < |init|)
      && (forall a, b :: 0 <= a < b < |before| ==> FirstKept(init, before[a], load) < FirstKept(init, before[b], load))
    requires var init, last := walk[..|walk| - 1], walk[|walk| - 1];
      after == before
      || (after == before + [last.relpath] && Kept(last, load) && FirstKept(init, last.relpath, load) == |init|)
    ensures forall a :: 0 <= a < |after| ==> FirstKept(walk, after[a], load) < |walk|
    ensures forall a, b :: 0 <= a < b < |after| ==> FirstKept(walk, after[a], load) < FirstKept(walk, after[b], load)
  {
    var init, last := walk[..|walk| - 1], walk[|walk| - 1];
    forall a | 0 <= a < |before|
      ensures FirstKept(walk, before[a], load) == FirstKept(init, before[a], load)
    {
      FirstKeptSnoc(walk, before[a], load);
    }
    if after != before {
      FirstKeptSnoc(walk, last.relpath, load);
      assert forall a :: 0 <= a < |before| ==> after[a] == before[a];
    }
  }

  /** Adding a file to the walk moves no path's first kept position, and gives one to its own path if it had none. */
  lemma {:induction false} FirstKeptSnoc(walk: seq<WalkedFile>, k: string, load: Loader)
    requires walk != []
    ensures var init, last := walk[..|walk| - 1], walk[|walk| - 1];
      FirstKept(walk, k, load)
        == if FirstKept(init, k, load) < |init| then FirstKept(init, k, load)
           else if Kept(last, load) && last.relpath == k then |init|
           else |walk|
  {
  }

  /** `index` fails exactly when some kept file's metadata is not a mapping. */
  lemma {:induction false} IndexSucceeds(walk: seq<WalkedFile>, defaults: Context, load: Loader)
    ensures IndexSpec(walk, defaults, load).Success?
      <==> forall i :: 0 <= i < |walk| && Kept(walk[i], load) ==> Loads(walk[i], load)
    decreases |walk|
  {
    if walk != [] {
      var init := walk[..|walk| - 1];
      IndexSucceeds(init, defaults, load);
      assert forall i :: 0 <= i < |init| ==> init[i] == walk[i];
    }
  }

  /** When `index` fails, the error names a kept file whose metadata is not a mapping. */
  lemma {:induction false} IndexErrorNamesFile(walk: seq<WalkedFile>, defaults: Context, load: Loader)
    ensures IndexSpec(walk, defaults, load).Failure? ==>
      exists i :: 0 <= i < |walk| && Kept(walk[i], load) && !Loads(walk[i], load)
        && walk[i].relpath == IndexSpec(walk, defaults, load).error.relpath
    decreases |walk|
  {
    if walk != [] {
      var init := walk[..|walk| - 1];
      IndexErrorNamesFile(init, defaults, load);
      assert forall i :: 0 <= i < |init| ==> init[i] == walk[i];
    }
  }

  /** The keys of the site are exactly the paths of the kept files. */
  lemma {:induction false} IndexKeys(walk: seq<WalkedFile>, defaults: Context, load: Loader)
    ensures IndexSpec(walk, defaults, load).Success? ==>
      forall k :: k in IndexSpec(walk, defaults, load).value.pages
        <==> exists i :: 0 <= i < |walk| && Kept(walk[i], load) && walk[i].relpath == k
    decreases |walk|
  {
    if walk != [] {
      var init := walk[..|walk| - 1];
      IndexKeys(init, defaults, load);
      assert forall i :: 0 <= i < |init| ==> init[i] == walk[i];
    }
  }

  /**
   * Each page is the entry of the last kept file with that path: the
   * defaults, overridden by its metadata, with its body as `content`.
   */
  lemma {:induction false} IndexEntries(walk: seq<WalkedFile>, defaults: Context, load: Loader)
    ensures IndexSpec(walk, defaults, load).Success? ==>
      forall i :: 0 <= i < |walk| && Kept(walk[i], load)
        && (forall j :: i < j < |walk| && Kept(walk[j], load) ==> walk[j].relpath != walk[i].relpath)
        ==> (Loads(walk[i], load)
          && walk[i].relpath in IndexSpec(walk, defaults, load).value.pages
          && IndexSpec(walk, defaults, load).value.pages[walk[i].relpath] == EntryOf(walk[i], defaults, load))
    decreases |walk|
  {
    if walk != [] {
      var init := walk[..|walk| - 1];
      IndexEntries(init, defaults, load);
      IndexSucceeds(walk, defaults, load);
      IndexKeys(init, defaults, load);
      assert forall i :: 0 <= i < |init| ==> init[i] == walk[i];
    }
  }

  /** Every page carries its body, a string, under `content`. */
  lemma {:induction false} IndexPagesHaveContent(walk: seq<WalkedFile>, defaults: Context, load: Loader)
    ensures IndexSpec(walk, defaults, load).Success? ==>
      forall k :: k in IndexSpec(walk, defaults, load).value.pages ==>
        "content" in IndexSpec(walk, defaults, load).value.pages[k]
        && IndexSpec(walk, defaults, load).value.pages[k]["content"].Str?
    decreases |walk|
  {
    if walk != [] {
      IndexPagesHaveContent(walk[..|walk| - 1], defaults, load);
    }
  }
}
