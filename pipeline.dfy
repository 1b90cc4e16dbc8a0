/**
  Activity extraction in `fetch_subjects_information` of the pipeline class.
  For each activity element the type is read first and checked against the
  ignore list; name and period are read after that. A missing element skips
  the activity and the loop goes on.
 */
module Pipeline {
  import opened Results
  import opened Text
  import opened Sequences
  import opened OrderedDict
  import opened Subjects
  import opened Pages

  /** `{"nome_atividade": ..., "tipo_atividade": ..., "periodo": ...}` */
  datatype Activity = Activity(name: string, kind: string, period: string)

  /** The activity type: the first line of the stripped heading text. */
  function KindOf(heading: string): string {
    FirstLine(Strip(heading))
  }

  /** What one activity element gives: None when it is skipped or ignored. */
  function Extract(ignored: seq<string>, n: ActivityNode): Option<Activity> {
    if n.heading.None? then None
    else if AnyIn(ignored, KindOf(n.heading.value)) then None
    else if n.name.None? || n.period.None? then None
    else Some(Activity(Strip(n.name.value), KindOf(n.heading.value), Strip(n.period.value)))
  }

  function Extractor(ignored: seq<string>): ActivityNode -> Option<Activity> {
    (n: ActivityNode) => Extract(ignored, n)
  }

  /** The `atividades` list of one subject page. */
  function ActivitiesOf(nodes: seq<ActivityNode>, ignored: seq<string>): seq<Activity> {
    FilterMap(nodes, Extractor(ignored))
  }

  /**
    The body of the inner loop: read the type, test it, then read the name and
    the period. These are the source's statements in their order, kept
    separate from `Extract`, the same computation as an expression, which the
    lemmas reason about.
   */
  method ExtractOne(node: ActivityNode, ignored: seq<string>) returns (r: Option<Activity>)
    ensures r == Extract(ignored, node)
  {
    if node.heading.None? {
      return None;
    }
    var tipo := KindOf(node.heading.value);
    if AnyIn(ignored, tipo) {
      return None;
    }
    if node.name.None? || node.period.None? {
      return None;
    }
    var nome := Strip(node.name.value);
    var periodo := Strip(node.period.value);
    return Some(Activity(nome, tipo, periodo));
  }

  /** The inner loop over the activity elements of one page. */
  method ExtractActivities(nodes: seq<ActivityNode>, ignored: seq<string>) returns (atividades: seq<Activity>)
    ensures atividades == ActivitiesOf(nodes, ignored)
  {
    atividades := [];
    for i := 0 to |nodes|
      invariant atividades == FilterMap(nodes[..i], Extractor(ignored))
    {
      var node := nodes[i];
      var kept := ExtractOne(node, ignored);
      assert FilterMap(nodes[..i + 1], Extractor(ignored)) == atividades + Kept(node, Extractor(ignored)) by {
        FilterMapSnoc(nodes[..i], node, Extractor(ignored));
        assert nodes[..i + 1] == nodes[..i] + [node];
      }
      if kept.Some? {
        atividades := atividades + [kept.value];
      }
    }
    assert nodes[..|nodes|] == nodes;
  }

  /** `fetch_subjects_information`: one dict assignment per readable subject page. */
  method FetchSubjectsInformation(subjects: seq<Subject>, pageOf: string -> Option<seq<ActivityNode>>,
                                  ignored: seq<string>)
    returns (info: Items<SubjectInfo<Activity>>)
    ensures info == Information(subjects, pageOf, Extractor(ignored))
  {
    info := [];
    for i := 0 to |subjects|
      invariant info == Information(subjects[..i], pageOf, Extractor(ignored))
    {
      var s := subjects[i];
      var next := info;
      if pageOf(s.link).Some? {
        var atividades := ExtractActivities(pageOf(s.link).value, ignored);
        next := Put(info, s.name, SubjectInfo(s.link, atividades));
      }
      assert next == Information(subjects[..i + 1], pageOf, Extractor(ignored)) by {
        assert subjects[..i + 1] == subjects[..i] + [s];
        if pageOf(s.link).Some? {
          InformationSnocRead(subjects[..i], pageOf, Extractor(ignored), s);
        } else {
          InformationSnocUnread(subjects[..i], pageOf, Extractor(ignored), s);
        }
      }
      info := next;
    }
    assert subjects[..|subjects|] == subjects;
  }

  /**
    An activity is kept exactly when some element has all three parts, its
    type contains no ignored entry, and the record is its stripped name, its
    type and its stripped period.
   */
  lemma ActivitiesOfMember(nodes: seq<ActivityNode>, ignored: seq<string>, a: Activity)
    ensures a in ActivitiesOf(nodes, ignored) <==>
      exists k :: 0 <= k < |nodes| && nodes[k].heading.Some? && nodes[k].name.Some? && nodes[k].period.Some?
        && !AnyIn(ignored, KindOf(nodes[k].heading.value))
        && a == Activity(Strip(nodes[k].name.value), KindOf(nodes[k].heading.value), Strip(nodes[k].period.value))
  {
    FilterMapMember(nodes, Extractor(ignored), a);
  }

  /**
    Every kept activity has a type with no ignored entry in it and no line
    break, and a name and period with no surrounding whitespace.
   */
  lemma ActivitiesOfClean(nodes: seq<ActivityNode>, ignored: seq<string>)
    ensures forall a :: a in ActivitiesOf(nodes, ignored) ==>
      && !AnyIn(ignored, a.kind)
      && !Contains(a.kind, "\n")
      && Strip(a.name) == a.name && Strip(a.period) == a.period
  {
    forall a | a in ActivitiesOf(nodes, ignored)
      ensures !AnyIn(ignored, a.kind) && !Contains(a.kind, "\n")
      ensures Strip(a.name) == a.name && Strip(a.period) == a.period
    {
      ActivitiesOfMember(nodes, ignored, a);
      var k :| 0 <= k < |nodes| && nodes[k].heading.Some? && nodes[k].name.Some? && nodes[k].period.Some?
        && !AnyIn(ignored, KindOf(nodes[k].heading.value))
        && a == Activity(Strip(nodes[k].name.value), KindOf(nodes[k].heading.value), Strip(nodes[k].period.value));
      SplitPartsFree(Strip(nodes[k].heading.value), "\n");
      StripIdempotent(nodes[k].name.value);
      StripIdempotent(nodes[k].period.value);
    }
  }

  /**
    An element that is missing a part, or whose type contains an ignored
    entry, contributes nothing and does not stop the elements after it.
   */
  lemma SkippedNode(before: seq<ActivityNode>, n: ActivityNode, after: seq<ActivityNode>, ignored: seq<string>)
    requires n.heading.None? || n.name.None? || n.period.None? || AnyIn(ignored, KindOf(n.heading.value))
    ensures ActivitiesOf(before + [n] + after, ignored) == ActivitiesOf(before, ignored) + ActivitiesOf(after, ignored)
  {
    FilterMapSkip(before, n, after, Extractor(ignored));
  }

  /** Kept activities stay in element order. */
  lemma ActivitiesOfConcat(a: seq<ActivityNode>, b: seq<ActivityNode>, ignored: seq<string>)
    ensures ActivitiesOf(a + b, ignored) == ActivitiesOf(a, ignored) + ActivitiesOf(b, ignored)
  {
    FilterMapConcat(a, b, Extractor(ignored));
  }

  /** With an empty ignore list, every element with all three parts is kept. */
  lemma NothingIgnored(nodes: seq<ActivityNode>)
    requires forall k :: 0 <= k < |nodes| ==> nodes[k].heading.Some? && nodes[k].name.Some? && nodes[k].period.Some?
    ensures |ActivitiesOf(nodes, [])| == |nodes|
  {
    if nodes != [] {
      NothingIgnored(nodes[1..]);
      assert Kept(nodes[0], Extractor([])) == [Extractor([])(nodes[0]).value];
    }
  }
}
