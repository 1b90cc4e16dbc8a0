/**
  What the two revisions read from each subject's page, and the dict they
  build from it. A page is read through the browser, so here it is a
  function from a subject's link to the activity elements found on it, or
  None when reading the page raises `RuntimeError` (the subject is then
  logged and left out of the dict).
 */
module Pages {
  import opened Results
  import opened Text
  import opened Sequences
  import opened OrderedDict
  import opened Subjects

  /**
    One `#js-activities-container .atividades` element: the text of its
    `h4.timeline-title`, of the `small` inside it, and of `small.text-muted em`.
    None stands for `NoSuchElementException`.
   */
  datatype ActivityNode = ActivityNode(heading: Option<string>, name: Option<string>, period: Option<string>)

  /** `{"link_disciplina": ..., "atividades": [...]}` */
  datatype SubjectInfo<A> = SubjectInfo(link: string, activities: seq<A>)

  /** `any(ignorada in text for ignorada in ignored)`, left to right. */
  predicate AnyIn(ignored: seq<string>, text: string) {
    ignored != [] && (Contains(text, ignored[0]) || AnyIn(ignored[1..], text))
  }

  /** Some entry of the list is a substring of the text. */
  lemma {:induction false} AnyInIff(ignored: seq<string>, text: string)
    ensures AnyIn(ignored, text) <==> exists k :: 0 <= k < |ignored| && Contains(text, ignored[k])
  {
    if ignored != [] {
      AnyInIff(ignored[1..], text);
      assert forall k :: 0 < k < |ignored| ==> ignored[k] == ignored[1..][k - 1];
      if exists k :: 0 <= k < |ignored| && Contains(text, ignored[k]) {
        var k :| 0 <= k < |ignored| && Contains(text, ignored[k]);
        if k > 0 {
          assert Contains(text, ignored[1..][k - 1]);
        }
      }
    }
  }

  /** The dict entry one subject contributes, given how its activities are extracted. */
  function Entry<A>(pageOf: string -> Option<seq<ActivityNode>>, extract: ActivityNode -> Option<A>, s: Subject)
    : Option<(string, SubjectInfo<A>)>
  {
    match pageOf(s.link)
    case None => None
    case Some(nodes) => Some((s.name, SubjectInfo(s.link, FilterMap(nodes, extract))))
  }

  function EntryOf<A>(pageOf: string -> Option<seq<ActivityNode>>, extract: ActivityNode -> Option<A>)
    : Subject -> Option<(string, SubjectInfo<A>)>
  {
    (s: Subject) => Entry(pageOf, extract, s)
  }

  /** The dict both revisions return: one assignment per readable subject, in subject order. */
  function Information<A>(subjects: seq<Subject>, pageOf: string -> Option<seq<ActivityNode>>,
                          extract: ActivityNode -> Option<A>): Items<SubjectInfo<A>>
  {
    Assign(FilterMap(subjects, EntryOf(pageOf, extract)))
  }

  /** One more subject whose page cannot be read leaves the dict as it is. */
  lemma InformationSnocUnread<A>(subjects: seq<Subject>, pageOf: string -> Option<seq<ActivityNode>>,
                                 extract: ActivityNode -> Option<A>, s: Subject)
    requires pageOf(s.link).None?
    ensures Information(subjects + [s], pageOf, extract) == Information(subjects, pageOf, extract)
  {
    var f := EntryOf(pageOf, extract);
    FilterMapSnoc(subjects, s, f);
    assert Kept(s, f) == [];
    assert FilterMap(subjects, f) + [] == FilterMap(subjects, f);
  }

  /** One more readable subject assigns its name to its link and activities. */
  lemma InformationSnocRead<A>(subjects: seq<Subject>, pageOf: string -> Option<seq<ActivityNode>>,
                               extract: ActivityNode -> Option<A>, s: Subject)
    requires pageOf(s.link).Some?
    ensures Information(subjects + [s], pageOf, extract)
         == Put(Information(subjects, pageOf, extract), s.name, SubjectInfo(s.link, FilterMap(pageOf(s.link).value, extract)))
  {
    var f := EntryOf(pageOf, extract);
    var done := FilterMap(subjects, f);
    FilterMapSnoc(subjects, s, f);
    var entry := (s.name, SubjectInfo(s.link, FilterMap(pageOf(s.link).value, extract)));
    assert Kept(s, f) == [entry];
    assert (done + [entry])[..|done|] == done;
  }

  /**
    A subject's name maps to the link and activities of the last readable
    subject with that name: a later subject of the same name overwrites an
    earlier one.
   */
  lemma InformationLastWins<A>(subjects: seq<Subject>, pageOf: string -> Option<seq<ActivityNode>>,
                               extract: ActivityNode -> Option<A>, i: nat)
    requires i < |subjects| && pageOf(subjects[i].link).Some?
    requires forall j :: i < j < |subjects| && subjects[j].name == subjects[i].name ==> pageOf(subjects[j].link).None?
    ensures Get(Information(subjects, pageOf, extract), subjects[i].name)
         == Some(SubjectInfo(subjects[i].link, FilterMap(pageOf(subjects[i].link).value, extract)))
  {
    var f := EntryOf(pageOf, extract);
    var s := subjects[i];
    var before, after := subjects[..i], subjects[i + 1..];
    var e1, e2 := FilterMap(before, f), FilterMap(after, f);
    var entry := f(s).value;
    var entries := e1 + [entry] + e2;
    assert FilterMap(subjects, f) == entries by {
      assert subjects == before + [s] + after;
      FilterMapConcat(before + [s], after, f);
      FilterMapSnoc(before, s, f);
    }
    assert forall j :: 0 <= j < |e2| ==> e2[j].0 != entry.0 by {
      forall k | 0 <= k < |after| && after[k].name == s.name ensures pageOf(after[k].link).None? {
        assert after[k] == subjects[i + 1 + k];
      }
      EntriesWithoutName(after, pageOf, extract, s.name);
    }
    assert forall j :: |e1| < j < |entries| ==> entries[j].0 != entry.0 by {
      forall j | |e1| < j < |entries| ensures entries[j] == e2[j - |e1| - 1] { }
    }
    AssignLastWins(entries, |e1|);
  }

  /** The entries of subjects none of which has a readable page under `name` carry other names. */
  lemma EntriesWithoutName<A>(subjects: seq<Subject>, pageOf: string -> Option<seq<ActivityNode>>,
                              extract: ActivityNode -> Option<A>, name: string)
    requires forall k :: 0 <= k < |subjects| && subjects[k].name == name ==> pageOf(subjects[k].link).None?
    ensures forall j :: 0 <= j < |FilterMap(subjects, EntryOf(pageOf, extract))| ==>
      FilterMap(subjects, EntryOf(pageOf, extract))[j].0 != name
  {
    var f := EntryOf(pageOf, extract);
    var entries := FilterMap(subjects, f);
    forall j | 0 <= j < |entries| ensures entries[j].0 != name {
      FilterMapMember(subjects, f, entries[j]);
    }
  }

  /** A name that no readable subject has is not a key of the dict. */
  lemma InformationAbsent<A>(subjects: seq<Subject>, pageOf: string -> Option<seq<ActivityNode>>,
                             extract: ActivityNode -> Option<A>, name: string)
    requires forall j :: 0 <= j < |subjects| && subjects[j].name == name ==> pageOf(subjects[j].link).None?
    ensures !HasKey(Information(subjects, pageOf, extract), name)
  {
    EntriesWithoutName(subjects, pageOf, extract, name);
    AssignAbsent(FilterMap(subjects, EntryOf(pageOf, extract)), name);
  }

  /** With distinct subject names and every page readable, the dict lists every subject in order. */
  lemma {:induction false} InformationDistinct<A>(subjects: seq<Subject>, pageOf: string -> Option<seq<ActivityNode>>,
                                                  extract: ActivityNode -> Option<A>)
    requires forall i, j :: 0 <= i < j < |subjects| ==> subjects[i].name != subjects[j].name
    requires forall j :: 0 <= j < |subjects| ==> pageOf(subjects[j].link).Some?
    ensures |Information(subjects, pageOf, extract)| == |subjects|
    ensures forall j :: 0 <= j < |subjects| ==>
      Information(subjects, pageOf, extract)[j] == (subjects[j].name, SubjectInfo(subjects[j].link, FilterMap(pageOf(subjects[j].link).value, extract)))
  {
    var f := EntryOf(pageOf, extract);
    EveryEntry(subjects, f);
    AssignDistinct(FilterMap(subjects, f));
  }

  /** When every subject gives an entry, the entries are the subjects' entries, position by position. */
  lemma {:induction false} EveryEntry<A>(subjects: seq<Subject>, f: Subject -> Option<(string, SubjectInfo<A>)>)
    requires forall j :: 0 <= j < |subjects| ==> f(subjects[j]).Some? && f(subjects[j]).value.0 == subjects[j].name
    requires forall i, j :: 0 <= i < j < |subjects| ==> subjects[i].name != subjects[j].name
    ensures |FilterMap(subjects, f)| == |subjects|
    ensures forall j :: 0 <= j < |subjects| ==> FilterMap(subjects, f)[j] == f(subjects[j]).value
    ensures DistinctKeys(FilterMap(subjects, f))
  {
    if subjects != [] {
      var rest := subjects[1..];
      EveryEntry(rest, f);
      assert FilterMap(subjects, f) == [f(subjects[0]).value] + FilterMap(rest, f);
      assert forall j :: 0 < j < |subjects| ==> subjects[j] == rest[j - 1];
    }
  }
}
