/**
 * `render` and `build`: for every page of the site, convert its Markdown
 * content to HTML, work out the output path and write the rendered layout
 * there, never overwriting a file that already exists.
 */
module Builder {
  import opened Values
  import opened PyStrings
  import opened PosixPath
  import opened Indexer

  /** The exceptions `build` can stop with, each naming the page it was building. */
  datatype BuildError =
    | ContentNotString(fpath: string)  // `context['content']` is missing or not text
    | SlugNotString(fpath: string)     // a truthy slug that `os.path.join` rejects
    | LayoutNotString(fpath: string)   // `context.get('layout')` has no `endswith`

  /** The template renderer: a layout file name and a context give the page text. */
  type Renderer = (string, Context) -> string

  /** The Markdown converter. */
  type Converter = string -> string

  /** The output tree: file paths and their contents. */
  class FileSystem {
    var files: map<string, string>

    constructor (files: map<string, string>)
      ensures this.files == files
    {
      this.files := files;
    }
  }

  /** `context.get('layout')`, when it is a string. */
  function LayoutName(ctx: Context): Option<string>
  {
    match Get(ctx, "layout")
    case Str(s) => Some(s)
    case _ => None
  }

  /** The template file for a layout: `.html` appended unless it is already there. */
  function LayoutFile(layout: string): (r: string)
    ensures EndsWith(r, ".html")
    ensures r == layout <==> EndsWith(layout, ".html")
    ensures !EndsWith(layout, ".html") ==> r == layout + ".html"
  {
    if EndsWith(layout, ".html") then layout else layout + ".html"
  }

  /** Adding the suffix a second time changes nothing. */
  lemma {:induction false} LayoutFileIdempotent(layout: string)
    ensures LayoutFile(LayoutFile(layout)) == LayoutFile(layout)
  {
  }

  /**
   * `render(src, dst, context, renderer)` on a file map: the layout is
   * resolved first; an existing dst is left alone, otherwise dst is written.
   */
  function RenderSpec(src: string, dst: string, ctx: Context, files: map<string, string>, renderer: Renderer)
    : (r: Result<map<string, string>, BuildError>)
    ensures r.Failure? <==> LayoutName(ctx).None?
    ensures r.Failure? ==> r.error == LayoutNotString(src)
    ensures r.Success? ==> r.value.Keys == files.Keys + {dst}
    ensures r.Success? ==> forall p :: p in files ==> r.value[p] == files[p]
    ensures r.Success? && dst !in files ==> r.value[dst] == renderer(LayoutFile(LayoutName(ctx).value), ctx)
  {
    match LayoutName(ctx)
    case None => Failure(LayoutNotString(src))
    case Some(layout) =>
      if dst in files then Success(files)
      else Success(files[dst := renderer(LayoutFile(layout), ctx)])
  }

  /** `render`: the file system changes at dst only, and only when nothing is there yet. */
  method Render(src: string, dst: string, ctx: Context, renderer: Renderer, fs: FileSystem)
    returns (err: Option<BuildError>)
    modifies fs
    ensures match RenderSpec(src, dst, ctx, old(fs.files), renderer)
      case Success(files) => err.None? && fs.files == files
      case Failure(e) => err == Some(e) && fs.files == old(fs.files)
  {
    var layout := Get(ctx, "layout");
    if !layout.Str? {
      return Some(LayoutNotString(src));
    }
    var name := layout.s;
    if !EndsWith(name, ".html") {
      name := name + ".html";
    }
    if dst in fs.files {
      return None;
    }
    fs.files := fs.files[dst := renderer(name, ctx)];
    return None;
  }

  /** `os.path.splitext(p)[0] + '.html'` */
  function HtmlPath(p: string): (r: string)
    ensures EndsWith(r, ".html")
  {
    Root(p) + ".html"
  }

  /**
   * The output path of the page at fpath: under dst, at fpath itself or,
   * with a truthy slug, at `basename(fpath)/slug`, with the extension
   * replaced by `.html`.
   */
  function OutPath(dst: string, fpath: string, ctx: Context): (r: Result<string, BuildError>)
    ensures r.Failure? <==> Truthy(Get(ctx, "slug")) && !Get(ctx, "slug").Str?
    ensures r.Failure? ==> r.error == SlugNotString(fpath)
    ensures r.Success? ==> EndsWith(r.value, ".html")
  {
    var slug := Get(ctx, "slug");
    if Truthy(slug) then
      if slug.Str? then Success(HtmlPath(PathJoin(dst, PathJoin(Basename(fpath), slug.s))))
      else Failure(SlugNotString(fpath))
    else Success(HtmlPath(PathJoin(dst, fpath)))
  }

  /**
   * Without a slug the page keeps its source path under dst, with `.html`
   * for its extension; for a relative path under a plain directory that is
   * `dst/<fpath without its extension>.html`.
   */
  lemma {:induction false} OutPathWithoutSlug(dst: string, fpath: string, ctx: Context)
    requires !Truthy(Get(ctx, "slug"))
    ensures OutPath(dst, fpath, ctx) == Success(PathJoin(dst, Root(fpath)) + ".html")
    ensures dst != "" && !EndsWith(dst, "/") && !StartsWith(fpath, "/") ==>
      OutPath(dst, fpath, ctx) == Success(dst + "/" + Root(fpath) + ".html")
  {
    RootOfJoin(dst, fpath);
    if dst != "" && !EndsWith(dst, "/") && !StartsWith(fpath, "/") {
      RootStartsWith(fpath);
      JoinRelative(dst, Root(fpath));
    }
  }

  /**
   * With a slug the page goes to `basename(fpath)` joined with the slug,
   * under dst, the slug's extension replaced by `.html`; for a relative
   * slug and a non-empty basename that is `<basename>/<slug root>` under
   * dst, and `dst/<basename>/<slug root>.html` under a plain directory.
   */
  lemma {:induction false} OutPathWithSlug(dst: string, fpath: string, ctx: Context, slug: string)
    requires Get(ctx, "slug") == Str(slug) && slug != ""
    ensures OutPath(dst, fpath, ctx) == Success(PathJoin(dst, PathJoin(Basename(fpath), Root(slug))) + ".html")
    ensures Basename(fpath) != "" && !StartsWith(slug, "/") ==>
      OutPath(dst, fpath, ctx) == Success(PathJoin(dst, Basename(fpath) + "/" + Root(slug)) + ".html")
    ensures Basename(fpath) != "" && !StartsWith(slug, "/") && dst != "" && !EndsWith(dst, "/") ==>
      OutPath(dst, fpath, ctx) == Success(dst + "/" + Basename(fpath) + "/" + Root(slug) + ".html")
  {
    var name := Basename(fpath);
    var rel := PathJoin(name, slug);
    assert OutPath(dst, fpath, ctx) == Success(HtmlPath(PathJoin(dst, rel)));
    RootOfJoin(dst, rel);
    RootOfJoin(name, slug);
    if name != "" && !StartsWith(slug, "/") {
      var root := Root(slug);
      BasenameSpec(fpath);
      RootStartsWith(slug);
      SlugJoin(name, root);
      if dst != "" && !EndsWith(dst, "/") {
        JoinRelative(dst, name + "/" + root);
        SlugHtmlPath(dst, name, root);
      }
    }
  }

  lemma {:induction false} SlugHtmlPath(dst: string, name: string, root: string)
    ensures dst + "/" + (name + "/" + root) + ".html" == dst + "/" + name + "/" + root + ".html"
  {
  }

  /** A non-empty name without `/` joined with a relative path is the name, a `/` and the path, and is relative. */
  lemma {:induction false} SlugJoin(name: string, rel: string)
    requires name != "" && '/' !in name && !StartsWith(rel, "/")
    ensures PathJoin(name, rel) == name + "/" + rel && !StartsWith(name + "/" + rel, "/")
  {
    assert name[0] != '/' && name[|name| - 1] != '/';
    JoinRelative(name, rel);
    assert (name + "/" + rel)[0] == name[0];
  }

  /** Joining a relative path onto a directory without a trailing `/` inserts one. */
  lemma {:induction false} JoinRelative(a: string, b: string)
    requires a != "" && !EndsWith(a, "/") && !StartsWith(b, "/")
    ensures PathJoin(a, b) == a + "/" + b
  {
  }

  /** `context['content'] = md2html(context['content'])` */
  function ConvertContent(fpath: string, ctx: Context, md2html: Converter): (r: Result<Context, BuildError>)
    ensures r.Failure? <==> !Get(ctx, "content").Str?
    ensures r.Success? ==> r.value.Keys == ctx.Keys && r.value["content"] == Str(md2html(Get(ctx, "content").s))
    ensures r.Success? ==> forall k :: k in ctx && k != "content" ==> r.value[k] == ctx[k]
  {
    match Get(ctx, "content")
    case Str(s) => Success(ctx["content" := Str(md2html(s))])
    case _ => Failure(ContentNotString(fpath))
  }

  /** The site's contexts and the file system as `build` leaves them, and the exception that stopped it, if any. */
  datatype BuildState = BuildState(pages: map<string, Context>, files: map<string, string>, err: Option<BuildError>)

  /**
   * The file `build` writes for a page whose context is ctx before
   * conversion: its output path and the rendered text, or None when the
   * page stops the build (content, slug or layout of the wrong kind).
   */
  function PageFile(fpath: string, ctx: Context, dst: string, renderer: Renderer, md2html: Converter)
    : Option<(string, string)>
  {
    match ConvertContent(fpath, ctx, md2html)
    case Failure(_) => None
    case Success(c) =>
      match OutPath(dst, fpath, c)
      case Failure(_) => None
      case Success(out) =>
        match LayoutName(c)
        case None => None
        case Some(layout) => Some((out, renderer(LayoutFile(layout), c)))
  }

  /** The page at fpath, with context ctx before conversion, is written to out. */
  predicate Claims(fpath: string, ctx: Context, dst: string, renderer: Renderer, md2html: Converter, out: string)
  {
    PageFile(fpath, ctx, dst, renderer, md2html).Some? && PageFile(fpath, ctx, dst, renderer, md2html).value.0 == out
  }

  /**
   * The output path and the render for a page whose content is converted:
   * the file map gains the output path and keeps every existing file, the
   * output path holds the rendered layout unless a file was already there,
   * and a file added is an `.html` one.
   */
  function WritePage(fpath: string, ctx: Context, files: map<string, string>, dst: string, renderer: Renderer)
    : (r: Result<map<string, string>, BuildError>)
    ensures r.Success? <==> OutPath(dst, fpath, ctx).Success? && LayoutName(ctx).Some?
    ensures r.Success? ==> r.value.Keys == files.Keys + {OutPath(dst, fpath, ctx).value}
    ensures r.Success? && OutPath(dst, fpath, ctx).value !in files ==>
      r.value[OutPath(dst, fpath, ctx).value] == renderer(LayoutFile(LayoutName(ctx).value), ctx)
    ensures r.Success? ==> forall p :: p in files ==> p in r.value && r.value[p] == files[p]
    ensures r.Success? ==> forall p :: p in r.value && p !in files ==> EndsWith(p, ".html")
    ensures r.Failure? ==> r.error in {SlugNotString(fpath), LayoutNotString(fpath)}
  {
    match OutPath(dst, fpath, ctx)
    case Failure(e) => Failure(e)
    case Success(out) => RenderSpec(fpath, out, ctx, files, renderer)
  }

  /**
   * One iteration of `build`'s loop: the content is converted in place first,
   * so it stays converted even when the path or the render then fails.
   */
  function BuildPage(pages: map<string, Context>, files: map<string, string>, fpath: string,
                     dst: string, renderer: Renderer, md2html: Converter): (r: BuildState)
    requires fpath in pages
    ensures r.pages.Keys == pages.Keys
    ensures forall k :: k in pages && k != fpath ==> r.pages[k] == pages[k]
  {
    match ConvertContent(fpath, pages[fpath], md2html)
    case Failure(e) => BuildState(pages, files, Some(e))
    case Success(ctx) =>
      var pages' := pages[fpath := ctx];
      match WritePage(fpath, ctx, files, dst, renderer)
      case Failure(e) => BuildState(pages', files, Some(e))
      case Success(files') => BuildState(pages', files', None)
  }

  /** One iteration keeps every existing file as it was, and any file it adds is an `.html` one. */
  lemma {:induction false} BuildPageFiles(pages: map<string, Context>, files: map<string, string>, fpath: string,
                                          dst: string, renderer: Renderer, md2html: Converter)
    requires fpath in pages
    ensures var r := BuildPage(pages, files, fpath, dst, renderer, md2html);
      (forall p :: p in files ==> p in r.files && r.files[p] == files[p])
      && (forall p :: p in r.files && p !in files ==> EndsWith(p, ".html"))
  {
  }

  /**
   * One iteration goes through exactly when the page has a file to write;
   * it then adds that file's path, with the rendered text unless a file was
   * already there, and otherwise leaves the file map alone.
   */
  lemma {:induction false} BuildPageWrites(pages: map<string, Context>, files: map<string, string>, fpath: string,
                                           dst: string, renderer: Renderer, md2html: Converter)
    requires fpath in pages
    ensures var r := BuildPage(pages, files, fpath, dst, renderer, md2html);
      var pf := PageFile(fpath, pages[fpath], dst, renderer, md2html);
      (r.err.None? <==> pf.Some?)
      && (r.err.Some? ==> r.files == files)
      && (pf.Some? ==> r.files.Keys == files.Keys + {pf.value.0})
      && (pf.Some? && pf.value.0 !in files ==> r.files[pf.value.0] == pf.value.1)
  {
  }

  /** `build` over the given keys, in order, stopping at the first exception. */
  function BuildFrom(pages: map<string, Context>, files: map<string, string>, keys: seq<string>,
                     dst: string, renderer: Renderer, md2html: Converter): (r: BuildState)
    requires forall k :: k in keys ==> k in pages
    ensures r.pages.Keys == pages.Keys
    decreases |keys|
  {
    if keys == [] then BuildState(pages, files, None)
    else
      var st := BuildPage(pages, files, keys[0], dst, renderer, md2html);
      if st.err.Some? then st
      else BuildFrom(st.pages, st.files, keys[1..], dst, renderer, md2html)
  }

  /** `build(site, dst, renderer)`, with the Markdown converter as a parameter. */
  method Build(site: Site, dst: string, renderer: Renderer, md2html: Converter, fs: FileSystem)
    returns (err: Option<BuildError>)
    requires site.Value().Valid()
    modifies site, fs
    ensures site.order == old(site.order)
    ensures BuildState(site.pages, fs.files, err)
      == BuildFrom(old(site.pages), old(fs.files), old(site.order), dst, renderer, md2html)
  {
    ghost var order := site.order;
    ghost var goal := BuildFrom(site.pages, fs.files, order, dst, renderer, md2html);
    for i := 0 to |site.order|
      invariant site.order == order && site.Value().Valid()
      invariant BuildFrom(site.pages, fs.files, order[i..], dst, renderer, md2html) == goal
    {
      var fpath := site.order[i];
      ghost var pages, files := site.pages, fs.files;
      BuildFromStep(pages, files, order, i, dst, renderer, md2html);
      err := BuildOne(site, fpath, dst, renderer, md2html, fs);
      if err.Some? {
        return err;
      }
    }
    assert order[|order|..] == [];
    return None;
  }

  /** `build` over the keys from i on is one page at keys[i], then the rest unless it stopped. */
  lemma {:induction false} BuildFromStep(pages: map<string, Context>, files: map<string, string>, keys: seq<string>, i: nat,
                                         dst: string, renderer: Renderer, md2html: Converter)
    requires i < |keys| && forall k :: k in keys ==> k in pages
    ensures forall k :: k in keys[i..] ==> k in pages
    ensures forall k :: k in keys[i + 1..] ==> k in pages
    ensures var st := BuildPage(pages, files, keys[i], dst, renderer, md2html);
      BuildFrom(pages, files, keys[i..], dst, renderer, md2html)
         == if st.err.Some? then st else BuildFrom(st.pages, st.files, keys[i + 1..], dst, renderer, md2html)
  {
    assert keys[i..][0] == keys[i] && keys[i..][1..] == keys[i + 1..];
    assert forall k :: k in keys[i..] ==> k in keys;
    assert forall k :: k in keys[i + 1..] ==> k in keys;
  }

  /** The body of `build`'s loop for the page at fpath. */
  method BuildOne(site: Site, fpath: string, dst: string, renderer: Renderer, md2html: Converter, fs: FileSystem)
    returns (err: Option<BuildError>)
    requires fpath in site.pages && site.Value().Valid()
    modifies site, fs
    ensures site.order == old(site.order) && site.Value().Valid()
    ensures BuildState(site.pages, fs.files, err) == BuildPage(old(site.pages), old(fs.files), fpath, dst, renderer, md2html)
  {
    var context := site.pages[fpath];
    var content := Get(context, "content");
    if !content.Str? {
      return Some(ContentNotString(fpath));
    }
    context := context["content" := Str(md2html(content.s))];
    site.Put(fpath, context);
    var out := OutPath(dst, fpath, context);
    if out.Failure? {
      return Some(out.error);
    }
    err := Render(fpath, out.value, context, renderer, fs);
  }

  /** `build` never changes or removes a file that was already there. */
  lemma {:induction false} BuildNeverOverwrites(pages: map<string, Context>, files: map<string, string>, keys: seq<string>,
                                                dst: string, renderer: Renderer, md2html: Converter)
    requires forall k :: k in keys ==> k in pages
    ensures forall p :: p in files ==>
      p in BuildFrom(pages, files, keys, dst, renderer, md2html).files
      && BuildFrom(pages, files, keys, dst, renderer, md2html).files[p] == files[p]
    decreases |keys|
  {
    if keys != [] {
      var st := BuildPage(pages, files, keys[0], dst, renderer, md2html);
      BuildPageFiles(pages, files, keys[0], dst, renderer, md2html);
      if st.err.None? {
        BuildNeverOverwrites(st.pages, st.files, keys[1..], dst, renderer, md2html);
      }
    }
  }

  /** Every file `build` adds is an `.html` file. */
  lemma {:induction false} BuildWritesHtml(pages: map<string, Context>, files: map<string, string>, keys: seq<string>,
                                           dst: string, renderer: Renderer, md2html: Converter)
    requires forall k :: k in keys ==> k in pages
    ensures forall p :: p in BuildFrom(pages, files, keys, dst, renderer, md2html).files && p !in files ==>
      EndsWith(p, ".html")
    decreases |keys|
  {
    if keys != [] {
      var st := BuildPage(pages, files, keys[0], dst, renderer, md2html);
      BuildPageFiles(pages, files, keys[0], dst, renderer, md2html);
      if st.err.None? {
        BuildWritesHtml(st.pages, st.files, keys[1..], dst, renderer, md2html);
      }
    }
  }

  /** `build` keeps the site's keys and touches no page outside the keys it goes over, even when it stops early. */
  lemma {:induction false} BuildLeavesOthers(pages: map<string, Context>, files: map<string, string>, keys: seq<string>,
                                             dst: string, renderer: Renderer, md2html: Converter)
    requires forall k :: k in keys ==> k in pages
    ensures forall k :: k in pages && k !in keys ==> BuildFrom(pages, files, keys, dst, renderer, md2html).pages[k] == pages[k]
    decreases |keys|
  {
    if keys != [] {
      var st := BuildPage(pages, files, keys[0], dst, renderer, md2html);
      if st.err.None? {
        assert forall k :: k in keys[1..] ==> k in keys;
        BuildLeavesOthers(st.pages, st.files, keys[1..], dst, renderer, md2html);
      }
    }
  }

  /** A page that goes through without an exception holds its converted content. */
  lemma {:induction false} BuildPageConverts(pages: map<string, Context>, files: map<string, string>, fpath: string,
                                             dst: string, renderer: Renderer, md2html: Converter)
    requires fpath in pages
    ensures BuildPage(pages, files, fpath, dst, renderer, md2html).err.None? ==>
      ConvertContent(fpath, pages[fpath], md2html).Success?
      && BuildPage(pages, files, fpath, dst, renderer, md2html).pages[fpath] == ConvertContent(fpath, pages[fpath], md2html).value
  {
  }

  /**
   * When `build` runs to the end over distinct keys, each of those pages has
   * had its content converted exactly once.
   */
  lemma {:induction false} BuildConvertsContent(pages: map<string, Context>, files: map<string, string>, keys: seq<string>,
                                                dst: string, renderer: Renderer, md2html: Converter)
    requires forall k :: k in keys ==> k in pages
    requires forall i, j :: 0 <= i < j < |keys| ==> keys[i] != keys[j]
    ensures BuildFrom(pages, files, keys, dst, renderer, md2html).err.None? ==>
      forall i :: 0 <= i < |keys| ==>
        ConvertContent(keys[i], pages[keys[i]], md2html).Success?
        && BuildFrom(pages, files, keys, dst, renderer, md2html).pages[keys[i]]
           == ConvertContent(keys[i], pages[keys[i]], md2html).value
    decreases |keys|
  {
    if keys != [] {
      var st := BuildPage(pages, files, keys[0], dst, renderer, md2html);
      BuildPageConverts(pages, files, keys[0], dst, renderer, md2html);
      if st.err.None? {
        var rest := keys[1..];
        RestOfDistinct(keys);
        BuildConvertsContent(st.pages, st.files, rest, dst, renderer, md2html);
        BuildLeavesOthers(st.pages, st.files, rest, dst, renderer, md2html);
        var final := BuildFrom(st.pages, st.files, rest, dst, renderer, md2html);
        assert BuildFrom(pages, files, keys, dst, renderer, md2html) == final;
        if final.err.None? {
          ConvertedKeys(pages, st.pages, final.pages, keys, md2html);
        }
      }
    }
  }

  /** The keys after the first are in the map, distinct, and differ from the first. */
  lemma {:induction false} RestOfDistinct(keys: seq<string>)
    requires keys != []
    requires forall i, j :: 0 <= i < j < |keys| ==> keys[i] != keys[j]
    ensures forall k :: k in keys[1..] ==> k in keys
    ensures forall i, j :: 0 <= i < j < |keys[1..]| ==> keys[1..][i] != keys[1..][j]
    ensures keys[0] !in keys[1..]
  {
    assert forall i :: 0 <= i < |keys[1..]| ==> keys[1..][i] == keys[i + 1];
  }

  /** The per-key step of BuildConvertsContent, on the maps before, after the first page and at the end. */
  lemma {:induction false} ConvertedKeys(pages: map<string, Context>, mid: map<string, Context>, fin: map<string, Context>,
                                         keys: seq<string>, md2html: Converter)
    requires keys != [] && forall k :: k in keys ==> k in pages
    requires forall i, j :: 0 <= i < j < |keys| ==> keys[i] != keys[j]
    requires mid.Keys == pages.Keys && fin.Keys == pages.Keys
    requires forall k :: k in pages && k != keys[0] ==> mid[k] == pages[k]
    requires ConvertContent(keys[0], pages[keys[0]], md2html).Success?
    requires fin[keys[0]] == mid[keys[0]] == ConvertContent(keys[0], pages[keys[0]], md2html).value
    requires forall i :: 0 <= i < |keys[1..]| ==>
      ConvertContent(keys[1..][i], mid[keys[1..][i]], md2html).Success?
      && fin[keys[1..][i]] == ConvertContent(keys[1..][i], mid[keys[1..][i]], md2html).value
    ensures forall i :: 0 <= i < |keys| ==>
      ConvertContent(keys[i], pages[keys[i]], md2html).Success?
      && fin[keys[i]] == ConvertContent(keys[i], pages[keys[i]], md2html).value
  {
    forall i | 0 < i < |keys|
      ensures ConvertContent(keys[i], pages[keys[i]], md2html).Success?
      ensures fin[keys[i]] == ConvertContent(keys[i], pages[keys[i]], md2html).value
    {
      assert keys[1..][i - 1] == keys[i] && keys[i] != keys[0];
    }
  }

  /**
   * When `build` runs to the end over distinct keys, every page's file is
   * in the output tree; where the path was free before the build and no
   * earlier page claimed it, it holds that page's rendered layout, so of
   * several pages with one output path the first one's render is kept.
   */
  lemma {:induction false} BuildWritesEveryPage(pages: map<string, Context>, files: map<string, string>, keys: seq<string>,
                                                dst: string, renderer: Renderer, md2html: Converter)
    requires forall k :: k in keys ==> k in pages
    requires forall i, j :: 0 <= i < j < |keys| ==> keys[i] != keys[j]
    ensures BuildFrom(pages, files, keys, dst, renderer, md2html).err.None? ==>
      forall i :: 0 <= i < |keys| ==>
        Written(pages, files, BuildFrom(pages, files, keys, dst, renderer, md2html).files, keys, i, dst, renderer, md2html)
    decreases |keys|
  {
    if keys != [] {
      var st := BuildPage(pages, files, keys[0], dst, renderer, md2html);
      BuildPageWrites(pages, files, keys[0], dst, renderer, md2html);
      if st.err.None? {
        var rest := keys[1..];
        RestOfDistinct(keys);
        BuildWritesEveryPage(st.pages, st.files, rest, dst, renderer, md2html);
        BuildNeverOverwrites(st.pages, st.files, rest, dst, renderer, md2html);
        var final := BuildFrom(st.pages, st.files, rest, dst, renderer, md2html);
        assert BuildFrom(pages, files, keys, dst, renderer, md2html) == final;
        if final.err.None? {
          WrittenKeys(pages, st.pages, files, st.files, final.files, keys, dst, renderer, md2html);
        }
      }
    }
  }

  /**
   * The page at keys[i] has a file to write, its path is in fin, and, when
   * the path was free in files and no earlier key claimed it, fin holds that
   * page's rendered text there.
   */
  predicate Written(pages: map<string, Context>, files: map<string, string>, fin: map<string, string>, keys: seq<string>, i: nat,
                    dst: string, renderer: Renderer, md2html: Converter)
    requires i < |keys| && forall k :: k in keys ==> k in pages
  {
    var pf := PageFile(keys[i], pages[keys[i]], dst, renderer, md2html);
    pf.Some? && pf.value.0 in fin
    && (pf.value.0 !in files && (forall j :: 0 <= j < i ==> !Claims(keys[j], pages[keys[j]], dst, renderer, md2html, pf.value.0))
        ==> fin[pf.value.0] == pf.value.1)
  }

  /** The per-key step of BuildWritesEveryPage, on the states before, after the first page and at the end. */
  lemma {:induction false} WrittenKeys(pages: map<string, Context>, mid: map<string, Context>,
                                       files: map<string, string>, midFiles: map<string, string>, fin: map<string, string>,
                                       keys: seq<string>, dst: string, renderer: Renderer, md2html: Converter)
    requires keys != [] && forall k :: k in keys ==> k in pages
    requires forall i, j :: 0 <= i < j < |keys| ==> keys[i] != keys[j]
    requires mid.Keys == pages.Keys
    requires forall k :: k in pages && k != keys[0] ==> mid[k] == pages[k]
    requires var pf := PageFile(keys[0], pages[keys[0]], dst, renderer, md2html);
      pf.Some? && midFiles.Keys == files.Keys + {pf.value.0}
      && (pf.value.0 !in files ==> midFiles[pf.value.0] == pf.value.1)
    requires forall p :: p in midFiles ==> p in fin && fin[p] == midFiles[p]
    requires forall k :: k in keys[1..] ==> k in mid
    requires forall i :: 0 <= i < |keys[1..]| ==> Written(mid, midFiles, fin, keys[1..], i, dst, renderer, md2html)
    ensures forall i :: 0 <= i < |keys| ==> Written(pages, files, fin, keys, i, dst, renderer, md2html)
  {
    var rest := keys[1..];
    var out0 := PageFile(keys[0], pages[keys[0]], dst, renderer, md2html).value.0;
    assert Written(pages, files, fin, keys, 0, dst, renderer, md2html);
    forall i | 0 < i < |keys|
      ensures Written(pages, files, fin, keys, i, dst, renderer, md2html)
    {
      assert rest[i - 1] == keys[i] && keys[i] != keys[0];
      assert Written(mid, midFiles, fin, rest, i - 1, dst, renderer, md2html);
      var pf := PageFile(keys[i], pages[keys[i]], dst, renderer, md2html);
      assert pf == PageFile(rest[i - 1], mid[rest[i - 1]], dst, renderer, md2html);
      var out := pf.value.0;
      if out !in files && forall j :: 0 <= j < i ==> !Claims(keys[j], pages[keys[j]], dst, renderer, md2html, out) {
        assert !Claims(keys[0], pages[keys[0]], dst, renderer, md2html, out);
        assert out != out0 && out !in midFiles;
        forall j | 0 <= j < i - 1
          ensures !Claims(rest[j], mid[rest[j]], dst, renderer, md2html, out)
        {
          assert rest[j] == keys[j + 1] && keys[j + 1] != keys[0];
          assert !Claims(keys[j + 1], pages[keys[j + 1]], dst, renderer, md2html, out);
        }
      }
    }
  }

  /** Pages as `index` builds them all carry text content, so `build` never stops for want of it. */
  lemma {:induction false} BuildContentAlwaysText(pages: map<string, Context>, files: map<string, string>, keys: seq<string>,
                                                  dst: string, renderer: Renderer, md2html: Converter)
    requires forall k :: k in keys ==> k in pages
    requires forall k :: k in pages ==> Get(pages[k], "content").Str?
    ensures BuildFrom(pages, files, keys, dst, renderer, md2html).err.Some? ==>
      !BuildFrom(pages, files, keys, dst, renderer, md2html).err.value.ContentNotString?
    decreases |keys|
  {
    if keys != [] {
      var st := BuildPage(pages, files, keys[0], dst, renderer, md2html);
      if st.err.None? {
        BuildContentAlwaysText(st.pages, st.files, keys[1..], dst, renderer, md2html);
      }
    }
  }

  /** A site as `index` returns it can be built in its own key order, and the build never stops for want of text content. */
  lemma {:induction false} IndexedSiteBuilds(walk: seq<WalkedFile>, defaults: Context, load: Loader,
                                             files: map<string, string>, dst: string, renderer: Renderer, md2html: Converter)
    requires IndexSpec(walk, defaults, load).Success?
    ensures forall k :: k in IndexSpec(walk, defaults, load).value.order ==> k in IndexSpec(walk, defaults, load).value.pages
    ensures var site := IndexSpec(walk, defaults, load).value;
      BuildFrom(site.pages, files, site.order, dst, renderer, md2html).err.Some? ==>
        !BuildFrom(site.pages, files, site.order, dst, renderer, md2html).err.value.ContentNotString?
  {
    var site := IndexSpec(walk, defaults, load).value;
    IndexValid(walk, defaults, load);
    IndexPagesHaveContent(walk, defaults, load);
    BuildContentAlwaysText(site.pages, files, site.order, dst, renderer, md2html);
  }
}
