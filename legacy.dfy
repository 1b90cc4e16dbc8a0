/**
  The older single-file script: activity capture as `capturar_informacoes_disciplinas`
  does it, and the screenshot name `save_screenshot` picks. Here the name is
  read before anything else and the ignore list is matched against the
  stripped name; the period is read only for activities that are kept.
 */
module Legacy {
  import opened Results
  import opened Text
  import opened Sequences
  import opened OrderedDict
  import opened Subjects
  import opened Pages
  import opened Screenshots
  import Pipeline

  /** `{"nome_atividade": ..., "periodo": ...}` */
  datatype LegacyActivity = LegacyActivity(name: string, period: string)

  /** What one activity element gives in the older script: None when it is skipped or ignored. */
  function LegacyExtract(ignored: seq<string>, n: ActivityNode): Option<LegacyActivity> {
    if n.name.None? then None
    else if AnyIn(ignored, Strip(n.name.value)) then None
    else if n.period.None? then None
    else Some(LegacyActivity(Strip(n.name.value), Strip(n.period.value)))
  }

  function LegacyExtractor(ignored: seq<string>): ActivityNode -> Option<LegacyActivity> {
    (n: ActivityNode) => LegacyExtract(ignored, n)
  }

  /** The `atividades` list the older script builds for one subject page. */
  function LegacyActivitiesOf(nodes: seq<ActivityNode>, ignored: seq<string>): seq<LegacyActivity> {
    FilterMap(nodes, LegacyExtractor(ignored))
  }

  /**
    The body of the older inner loop: read the name, test it, then read the
    period. These are the source's statements in their order, kept separate
    from `LegacyExtract`, the same computation as an expression, which the
    lemmas reason about.
   */
  method LegacyExtractOne(node: ActivityNode, ignored: seq<string>) returns (r: Option<LegacyActivity>)
    ensures r == LegacyExtract(ignored, node)
  {
    if node.name.None? {
      return None;
    }
    var nome := Strip(node.name.value);
    if AnyIn(ignored, nome) {
      return None;
    }
    if node.period.None? {
      return None;
    }
    var periodo := Strip(node.period.value);
    return Some(LegacyActivity(nome, periodo));
  }

  /** The inner loop of `capturar_informacoes_disciplinas`. */
  method ExtractLegacyActivities(nodes: seq<ActivityNode>, ignored: seq<string>) returns (atividades: seq<LegacyActivity>)
    ensures atividades == LegacyActivitiesOf(nodes, ignored)
  {
    atividades := [];
    for i := 0 to |nodes|
      invariant atividades == FilterMap(nodes[..i], LegacyExtractor(ignored))
    {
      var node := nodes[i];
      assert FilterMap(nodes[..i + 1], LegacyExtractor(ignored)) == atividades + Kept(node, LegacyExtractor(ignored)) by {
        FilterMapSnoc(nodes[..i], node, LegacyExtractor(ignored));
        assert nodes[..i + 1] == nodes[..i] + [node];
      }
      var kept := LegacyExtractOne(node, ignored);
      if kept.Some? {
        atividades := atividades + [kept.value];
      }
    }
    assert nodes[..|nodes|] == nodes;
  }

  /** `capturar_informacoes_disciplinas`: one dict assignment per readable subject page. */
  method CaptureSubjectsInformation(subjects: seq<Subject>, pageOf: string -> Option<seq<ActivityNode>>,
                                    ignored: seq<string>)
    returns (info: Items<SubjectInfo<LegacyActivity>>)
    ensures info == Information(subjects, pageOf, LegacyExtractor(ignored))
  {
    info := [];
    for i := 0 to |subjects|
      invariant info == Information(subjects[..i], pageOf, LegacyExtractor(ignored))
    {
      var s := subjects[i];
      var next := info;
      if pageOf(s.link).Some? {
        var atividades := ExtractLegacyActivities(pageOf(s.link).value, ignored);
        next := Put(info, s.name, SubjectInfo(s.link, atividades));
      }
      assert next == Information(subjects[..i + 1], pageOf, LegacyExtractor(ignored)) by {
        assert subjects[..i + 1] == subjects[..i] + [s];
        if pageOf(s.link).Some? {
          InformationSnocRead(subjects[..i], pageOf, LegacyExtractor(ignored), s);
        } else {
          InformationSnocUnread(subjects[..i], pageOf, LegacyExtractor(ignored), s);
        }
      }
      info := next;
    }
    assert subjects[..|subjects|] == subjects;
  }

  /** The name the older `save_screenshot` uses in a directory listing these names. */
  function LegacyScreenshotName(names: seq<string>, filename: string, fmt: string): string {
    ScreenshotFileName(NextTagOf(TagsOf(FilterMap(names, ImageName(fmt)))), filename, fmt)
  }

  /** `save_screenshot` of the older script: the suffix loop, the tag loop, then the name. */
  method SaveScreenshotName(names: seq<string>, filename: string, fmt: string) returns (name: string)
    ensures name == LegacyScreenshotName(names, filename, fmt)
  {
    var existing: seq<string> := [];
    for i := 0 to |names|
      invariant existing == FilterMap(names[..i], ImageName(fmt))
    {
      var f := names[i];
      assert FilterMap(names[..i + 1], ImageName(fmt)) == existing + Kept(f, ImageName(fmt)) by {
        FilterMapSnoc(names[..i], f, ImageName(fmt));
        assert names[..i + 1] == names[..i] + [f];
      }
      if EndsWith(f, "." + fmt) {
        existing := existing + [f];
      }
    }
    assert names[..|names|] == names;
    var tag := NextTag(existing);
    name := ScreenshotFileName(tag, filename, fmt);
  }

  /**
    An activity is kept exactly when some element has a name and a period,
    its stripped name contains no ignored entry, and the record is its
    stripped name and stripped period.
   */
  lemma LegacyActivitiesOfMember(nodes: seq<ActivityNode>, ignored: seq<string>, a: LegacyActivity)
    ensures a in LegacyActivitiesOf(nodes, ignored) <==>
      exists k :: 0 <= k < |nodes| && nodes[k].name.Some? && nodes[k].period.Some?
        && !AnyIn(ignored, Strip(nodes[k].name.value))
        && a == LegacyActivity(Strip(nodes[k].name.value), Strip(nodes[k].period.value))
  {
    FilterMapMember(nodes, LegacyExtractor(ignored), a);
  }

  /** Every kept activity has a name with no ignored entry in it, and no surrounding whitespace. */
  lemma LegacyActivitiesOfClean(nodes: seq<ActivityNode>, ignored: seq<string>)
    ensures forall a :: a in LegacyActivitiesOf(nodes, ignored) ==>
      !AnyIn(ignored, a.name) && Strip(a.name) == a.name && Strip(a.period) == a.period
  {
    forall a | a in LegacyActivitiesOf(nodes, ignored)
      ensures !AnyIn(ignored, a.name) && Strip(a.name) == a.name && Strip(a.period) == a.period
    {
      LegacyActivitiesOfMember(nodes, ignored, a);
      var k :| 0 <= k < |nodes| && nodes[k].name.Some? && nodes[k].period.Some?
        && !AnyIn(ignored, Strip(nodes[k].name.value))
        && a == LegacyActivity(Strip(nodes[k].name.value), Strip(nodes[k].period.value));
      StripIdempotent(nodes[k].name.value);
      StripIdempotent(nodes[k].period.value);
    }
  }

  /**
    An element with no name, no period, or an ignored name contributes nothing
    and does not stop the elements after it; the period of an ignored element
    is never needed.
   */
  lemma LegacySkippedNode(before: seq<ActivityNode>, n: ActivityNode, after: seq<ActivityNode>, ignored: seq<string>)
    requires n.name.None? || n.period.None? || AnyIn(ignored, Strip(n.name.value))
    ensures LegacyActivitiesOf(before + [n] + after, ignored) == LegacyActivitiesOf(before, ignored) + LegacyActivitiesOf(after, ignored)
  {
    FilterMapSkip(before, n, after, LegacyExtractor(ignored));
  }

  /** Kept activities stay in element order. */
  lemma LegacyActivitiesOfConcat(a: seq<ActivityNode>, b: seq<ActivityNode>, ignored: seq<string>)
    ensures LegacyActivitiesOf(a + b, ignored) == LegacyActivitiesOf(a, ignored) + LegacyActivitiesOf(b, ignored)
  {
    FilterMapConcat(a, b, LegacyExtractor(ignored));
  }

  /**
    The two revisions keep the same elements when nothing is ignored and every
    element has all its parts, and then agree on names and periods.
   */
  lemma {:induction false} RevisionsAgree(nodes: seq<ActivityNode>)
    requires forall k :: 0 <= k < |nodes| ==> nodes[k].heading.Some? && nodes[k].name.Some? && nodes[k].period.Some?
    ensures |LegacyActivitiesOf(nodes, [])| == |Pipeline.ActivitiesOf(nodes, [])| == |nodes|
    ensures forall k :: 0 <= k < |nodes| ==>
      && LegacyActivitiesOf(nodes, [])[k].name == Pipeline.ActivitiesOf(nodes, [])[k].name
      && LegacyActivitiesOf(nodes, [])[k].period == Pipeline.ActivitiesOf(nodes, [])[k].period
  {
    if nodes != [] {
      RevisionsAgree(nodes[1..]);
      Pipeline.NothingIgnored(nodes[1..]);
      assert Kept(nodes[0], LegacyExtractor([])) == [LegacyExtractor([])(nodes[0]).value];
      assert Kept(nodes[0], Pipeline.Extractor([])) == [Pipeline.Extractor([])(nodes[0]).value];
      LegacyAll(nodes[1..]);
    }
  }

  /** With an empty ignore list, the older script keeps every element with a name and a period. */
  lemma {:induction false} LegacyAll(nodes: seq<ActivityNode>)
    requires forall k :: 0 <= k < |nodes| ==> nodes[k].name.Some? && nodes[k].period.Some?
    ensures |LegacyActivitiesOf(nodes, [])| == |nodes|
  {
    if nodes != [] {
      LegacyAll(nodes[1..]);
      assert Kept(nodes[0], LegacyExtractor([])) == [LegacyExtractor([])(nodes[0]).value];
    }
  }

  /** The saved name carries the next tag and the image suffix, so a later listing counts it. */
  lemma LegacyScreenshotNameShape(names: seq<string>, filename: string, fmt: string)
    ensures TagOf(LegacyScreenshotName(names, filename, fmt)) == Some(NextTagOf(TagsOf(FilterMap(names, ImageName(fmt)))))
    ensures ImageName(fmt)(LegacyScreenshotName(names, filename, fmt)).Some?
  {
    FileNameCarriesTag(NextTagOf(TagsOf(FilterMap(names, ImageName(fmt)))), filename, fmt);
  }

  /**
    The older script does not ask whether an entry is a regular file; on a
    directory holding only regular files both revisions list the same names.
   */
  lemma {:induction false} ListingsAgreeOnFiles(entries: seq<DirEntry>, fmt: string)
    requires forall k :: 0 <= k < |entries| ==> entries[k].isFile
    ensures FilterMap(entries, ImageFile(fmt)) == FilterMap(NamesOf(entries), ImageName(fmt))
  {
    if entries != [] {
      ListingsAgreeOnFiles(entries[1..], fmt);
      assert NamesOf(entries) == [entries[0].name] + NamesOf(entries[1..]);
    }
  }

  /** The names of a listing, as `os.listdir` gives them. */
  function NamesOf(entries: seq<DirEntry>): (r: seq<string>)
    ensures |r| == |entries|
  {
    if entries == [] then [] else [entries[0].name] + NamesOf(entries[1..])
  }
}
