/**
 * `extract_yaml`: split a source document into its YAML front matter and
 * its Markdown body. The document must open with a `---` line; the
 * metadata runs to the next `---` line, blank lines in it are dropped; the
 * body is every line after that, verbatim.
 */
module FrontMatter {
  import opened Values
  import opened PyStrings

  /** What the YAML loader makes of the joined metadata lines. */
  datatype YamlDoc = Parsed(value: Value) | SyntaxError

  /**
   * Why a document is skipped. A bad first line raises an exception (the
   * name it raises is undefined, so it is really a NameError) and the
   * loader raises on malformed YAML; the indexer catches both alike.
   */
  datatype ParseError = InvalidFirstLine | InvalidYaml

  datatype Document = Document(metadata: Value, body: string)

  /** A line that is `---` once stripped of surrounding whitespace. */
  predicate IsDelimiter(line: string)
  {
    Strip(line) == "---"
  }

  /** A line that is empty once stripped of surrounding whitespace. */
  predicate IsBlank(line: string)
  {
    Strip(line) == ""
  }

  /** The index of the first delimiter line, or |lines| when there is none. */
  function FirstDelimiter(lines: seq<string>): (k: nat)
    ensures k <= |lines|
    ensures k < |lines| ==> IsDelimiter(lines[k])
    ensures forall j :: 0 <= j < k ==> !IsDelimiter(lines[j])
  {
    if lines == [] then 0
    else if IsDelimiter(lines[0]) then 0
    else 1 + FirstDelimiter(lines[1..])
  }

  /** The lines that are not blank, in their original order. */
  function NonBlank(lines: seq<string>): (r: seq<string>)
    ensures |r| <= |lines|
    ensures forall i :: 0 <= i < |r| ==> !IsBlank(r[i])
    ensures (forall i :: 0 <= i < |lines| ==> !IsBlank(lines[i])) ==> r == lines
    ensures (forall i :: 0 <= i < |lines| ==> IsBlank(lines[i])) ==> r == []
    ensures forall l :: l in r <==> l in lines && !IsBlank(l)
  {
    if lines == [] then []
    else
      var init, last := lines[..|lines| - 1], lines[|lines| - 1];
      assert lines == init + [last];
      NonBlank(init) + (if IsBlank(last) then [] else [last])
  }

  /** Dropping blank lines distributes over concatenation, so the kept lines stay in their order. */
  lemma {:induction false} NonBlankAppend(a: seq<string>, b: seq<string>)
    ensures NonBlank(a + b) == NonBlank(a) + NonBlank(b)
    decreases |b|
  {
    if b == [] {
      assert a + b == a;
    } else {
      var init, last := b[..|b| - 1], b[|b| - 1];
      assert (a + b)[..|a + b| - 1] == a + init;
      assert (a + b)[|a + b| - 1] == last;
      NonBlankAppend(a, init);
    }
  }

  /** One line is kept exactly when it is not blank. */
  lemma {:induction false} NonBlankSingle(line: string)
    ensures NonBlank([line]) == if IsBlank(line) then [] else [line]
  {
    assert [line][..0] == [];
  }

  /** The metadata lines: the non-blank lines before the closing delimiter. */
  function MetadataLines(rest: seq<string>): seq<string>
  {
    NonBlank(rest[..FirstDelimiter(rest)])
  }

  /** The body lines: every line after the closing delimiter, none if it is missing. */
  function BodyLines(rest: seq<string>): seq<string>
  {
    var k := FirstDelimiter(rest);
    if k < |rest| then rest[k + 1..] else []
  }

  /** `metadata or {}`: a falsy loaded value becomes the empty mapping. */
  function OrEmpty(v: Value): (r: Value)
    ensures Truthy(v) ==> r == v
    ensures !Truthy(v) ==> r == Mapping(map[])
  {
    if Truthy(v) then v else Mapping(map[])
  }

  /** What `extract_yaml(text)` returns, or the exception it raises, with the YAML loader as a parameter. */
  function Extract(text: string, yaml: string -> YamlDoc): (r: Result<Document, ParseError>)
    ensures r == Failure(InvalidFirstLine) <==> !IsDelimiter(Split(text, '\n')[0])
    ensures text == "" ==> r == Failure(InvalidFirstLine)
    ensures r.Success? ==> r.value.metadata == Mapping(map[]) || Truthy(r.value.metadata)
    ensures r.Success? && (forall j :: 1 <= j < |Split(text, '\n')| ==> !IsDelimiter(Split(text, '\n')[j]))
      ==> r.value.body == ""
  {
    var lines := Split(text, '\n');
    if !IsDelimiter(lines[0]) then Failure(InvalidFirstLine)
    else
      var rest := lines[1..];
      assert forall j :: 0 <= j < |rest| ==> rest[j] == lines[j + 1];
      match yaml(Join(MetadataLines(rest), '\n'))
      case SyntaxError => Failure(InvalidYaml)
      case Parsed(v) => Success(Document(OrEmpty(v), Join(BodyLines(rest), '\n')))
  }

  /** The state `extract_yaml` carries from line to line once the first line is accepted. */
  datatype ScanState = ScanState(metadata: seq<string>, content: seq<string>, metadataParsed: bool)

  /** Where one line after the first goes: dropped, the closing delimiter, metadata or content. */
  function ScanLine(st: ScanState, line: string): ScanState
  {
    if IsBlank(line) && !st.metadataParsed then st
    else if IsDelimiter(line) && !st.metadataParsed then st.(metadataParsed := true)
    else if !st.metadataParsed then st.(metadata := st.metadata + [line])
    else st.(content := st.content + [line])
  }

  /** The state after scanning the given lines (those after the first), one at a time. */
  ghost function Scan(lines: seq<string>): ScanState
  {
    if lines == [] then ScanState([], [], false)
    else ScanLine(Scan(lines[..|lines| - 1]), lines[|lines| - 1])
  }

  /**
   * The line-by-line state machine of `extract_yaml`: the flags `firstLine`
   * and `metadataParsed` decide where each line goes.
   */
  method ExtractYaml(text: string, yaml: string -> YamlDoc) returns (r: Result<Document, ParseError>)
    ensures r == Extract(text, yaml)
  {
    var lines := Split(text, '\n');
    ghost var rest := lines[1..];
    var firstLine := true;
    var metadata: seq<string> := [];
    var content: seq<string> := [];
    var metadataParsed := false;
    var i := 0;
    while i < |lines|
      invariant 0 <= i <= |lines|
      invariant firstLine <==> i == 0
      invariant i == 0 ==> metadata == [] && content == [] && !metadataParsed
      invariant i > 0 ==> IsDelimiter(lines[0])
      invariant i > 0 ==> ScanState(metadata, content, metadataParsed) == Scan(rest[..i - 1])
    {
      var line := lines[i];
      if firstLine {
        firstLine := false;
        if !IsDelimiter(line) {
          return Failure(InvalidFirstLine);
        }
        assert rest[..0] == [];
      } else {
        assert rest[..i][..i - 1] == rest[..i - 1];
        assert line == rest[..i][i - 1];
        if IsBlank(line) && !metadataParsed {
        } else if IsDelimiter(line) && !metadataParsed {
          metadataParsed := true;
        } else if !metadataParsed {
          metadata := metadata + [line];
        } else {
          content := content + [line];
        }
      }
      i := i + 1;
    }
    assert rest[..|lines| - 1] == rest;
    ScanMatchesSpec(rest);
    var body := Join(content, '\n');
    match yaml(Join(metadata, '\n')) {
      case SyntaxError =>
        r := Failure(InvalidYaml);
      case Parsed(v) =>
        var loaded := if Truthy(v) then v else Mapping(map[]);
        r := Success(Document(loaded, body));
    }
  }

  /** The first delimiter is the one position that has a delimiter and none before it. */
  lemma {:induction false} FirstDelimiterUnique(lines: seq<string>, k: nat)
    requires k <= |lines|
    requires k < |lines| ==> IsDelimiter(lines[k])
    requires forall j :: 0 <= j < k ==> !IsDelimiter(lines[j])
    ensures FirstDelimiter(lines) == k
  {
  }

  /**
   * The scan agrees with the declarative reading: metadata is the non-blank
   * lines before the first delimiter, content is every line after it.
   */
  lemma {:induction false} ScanMatchesSpec(lines: seq<string>)
    ensures Scan(lines).metadataParsed <==> FirstDelimiter(lines) < |lines|
    ensures Scan(lines).metadata == MetadataLines(lines)
    ensures Scan(lines).content == BodyLines(lines)
    decreases |lines|
  {
    if lines == [] {
      assert lines[..0] == [];
    } else {
      var init, last := lines[..|lines| - 1], lines[|lines| - 1];
      assert lines == init + [last];
      ScanMatchesSpec(init);
      ScanSnoc(init, last);
      FirstDelimiterSnoc(init, last);
      if FirstDelimiter(init) < |init| {
        ScanAfterClose(init, last);
      } else if IsDelimiter(last) {
        ScanAtClose(init, last);
      } else {
        ScanBeforeClose(init, last);
      }
    }
  }

  /** A line after the closing delimiter is appended to the content. */
  lemma {:induction false} ScanAfterClose(init: seq<string>, last: string)
    requires FirstDelimiter(init) < |init|
    requires Scan(init).metadataParsed
    requires Scan(init).metadata == MetadataLines(init) && Scan(init).content == BodyLines(init)
    requires Scan(init + [last]) == ScanLine(Scan(init), last)
    requires FirstDelimiter(init + [last]) == FirstDelimiter(init)
    ensures Scan(init + [last]).metadataParsed
    ensures Scan(init + [last]).metadata == MetadataLines(init + [last])
    ensures Scan(init + [last]).content == BodyLines(init + [last])
  {
    var lines, d := init + [last], FirstDelimiter(init);
    assert lines[..d] == init[..d];
    assert lines[d + 1..] == init[d + 1..] + [last];
  }

  /** The closing delimiter itself only flips the flag. */
  lemma {:induction false} ScanAtClose(init: seq<string>, last: string)
    requires FirstDelimiter(init) == |init| && IsDelimiter(last)
    requires !Scan(init).metadataParsed
    requires Scan(init).metadata == MetadataLines(init) && Scan(init).content == BodyLines(init)
    requires Scan(init + [last]) == ScanLine(Scan(init), last)
    requires FirstDelimiter(init + [last]) == |init|
    ensures Scan(init + [last]).metadataParsed
    ensures Scan(init + [last]).metadata == MetadataLines(init + [last])
    ensures Scan(init + [last]).content == BodyLines(init + [last])
  {
    var lines := init + [last];
    assert lines[..|init|] == init[..|init|];
    assert lines[|init| + 1..] == [];
  }

  /** Before the closing delimiter a line joins the metadata unless it is blank. */
  lemma {:induction false} ScanBeforeClose(init: seq<string>, last: string)
    requires FirstDelimiter(init) == |init| && !IsDelimiter(last)
    requires !Scan(init).metadataParsed
    requires Scan(init).metadata == MetadataLines(init) && Scan(init).content == BodyLines(init)
    requires Scan(init + [last]) == ScanLine(Scan(init), last)
    requires FirstDelimiter(init + [last]) == |init| + 1
    ensures !Scan(init + [last]).metadataParsed
    ensures Scan(init + [last]).metadata == MetadataLines(init + [last])
    ensures Scan(init + [last]).content == BodyLines(init + [last])
  {
    var lines := init + [last];
    assert lines[..|lines|] == lines;
    assert init[..|init|] == init;
    assert lines[..|init|] == init;
    NonBlankSnoc(lines, |init|);
  }

  lemma {:induction false} ScanSnoc(init: seq<string>, last: string)
    ensures Scan(init + [last]) == ScanLine(Scan(init), last)
  {
    assert (init + [last])[..|init|] == init;
  }

  /** Appending a line moves the first delimiter only when there was none before. */
  lemma {:induction false} FirstDelimiterSnoc(init: seq<string>, last: string)
    ensures FirstDelimiter(init + [last])
      == if FirstDelimiter(init) < |init| then FirstDelimiter(init)
         else if IsDelimiter(last) then |init|
         else |init| + 1
  {
    var lines := init + [last];
    var d := FirstDelimiter(init);
    assert forall j :: 0 <= j < |init| ==> lines[j] == init[j];
    if d < |init| {
      FirstDelimiterUnique(lines, d);
    } else if IsDelimiter(last) {
      FirstDelimiterUnique(lines, |init|);
    } else {
      FirstDelimiterUnique(lines, |init| + 1);
    }
  }

  /** Extending the scanned prefix by one line adds that line unless it is blank. */
  lemma {:induction false} NonBlankSnoc(lines: seq<string>, k: nat)
    requires k < |lines|
    ensures NonBlank(lines[..k + 1]) == NonBlank(lines[..k]) + (if IsBlank(lines[k]) then [] else [lines[k]])
  {
    assert lines[..k + 1][..k] == lines[..k];
  }

  /**
   * Round trip: a document written as an opening `---`, metadata lines that
   * are neither blank nor delimiters, a closing `---` and any body comes
   * apart into exactly those metadata lines and that body, whatever the body
   * holds (blank lines and further `---` lines included).
   */
  lemma {:induction false} ExtractRoundTrip(meta: seq<string>, body: string, yaml: string -> YamlDoc)
    requires forall i :: 0 <= i < |meta| ==> '\n' !in meta[i] && !IsBlank(meta[i]) && !IsDelimiter(meta[i])
    ensures Extract("---\n" + Join(meta, '\n') + "\n---\n" + body, yaml)
      == match yaml(Join(meta, '\n'))
         case SyntaxError => Failure(InvalidYaml)
         case Parsed(v) => Success(Document(OrEmpty(v), body))
  {
    var j := Join(meta, '\n');
    var text := "---\n" + j + "\n---\n" + body;
    DocumentLines(j, body);
    var mm := Split(j, '\n');
    if meta == [] {
      assert mm == [""];
      assert IsBlank("");
      assert NonBlank(mm) == [];
    } else {
      SplitJoin(meta, '\n');
    }
    ExtractFromLines(text, yaml, mm, Split(body, '\n'));
    JoinSplit(body, '\n');
  }

  /** The lines of a document written as `---`, metadata text, `---` and a body. */
  lemma {:induction false} DocumentLines(j: string, body: string)
    ensures Split("---\n" + j + "\n---\n" + body, '\n')
      == ["---"] + Split(j, '\n') + ["---"] + Split(body, '\n')
  {
    var d := "---";
    assert "---\n" + j + "\n---\n" + body == d + ['\n'] + (j + ['\n'] + (d + ['\n'] + body));
    SplitWithoutSeparator(d, '\n');
    SplitFramed(d, j, body, '\n');
  }

  /** Splitting `d sep j sep d sep body`, for a d without sep, yields d, j's pieces, d and body's pieces. */
  lemma {:induction false} SplitFramed(d: string, j: string, body: string, sep: char)
    requires Split(d, sep) == [d]
    ensures Split(d + [sep] + (j + [sep] + (d + [sep] + body)), sep) == [d] + Split(j, sep) + [d] + Split(body, sep)
  {
    SplitAround(d, j + [sep] + (d + [sep] + body), sep);
    SplitAround(j, d + [sep] + body, sep);
    SplitAround(d, body, sep);
  }

  /** Extract on a text whose lines are a delimiter, non-delimiter lines, a delimiter and the rest. */
  lemma {:induction false} ExtractFromLines(text: string, yaml: string -> YamlDoc, mm: seq<string>, bl: seq<string>)
    requires Split(text, '\n') == ["---"] + mm + ["---"] + bl
    requires forall i :: 0 <= i < |mm| ==> !IsDelimiter(mm[i])
    ensures Extract(text, yaml)
      == match yaml(Join(NonBlank(mm), '\n'))
         case SyntaxError => Failure(InvalidYaml)
         case Parsed(v) => Success(Document(OrEmpty(v), Join(bl, '\n')))
  {
    var lines := Split(text, '\n');
    assert IsDelimiter("---");
    assert lines[0] == "---";
    var rest := lines[1..];
    assert rest == mm + ["---"] + bl;
    FirstDelimiterUnique(rest, |mm|);
    assert rest[..|mm|] == mm;
    assert rest[|mm| + 1..] == bl;
  }
}
