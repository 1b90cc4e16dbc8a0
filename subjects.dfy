/**
  Subject discovery (`find_subjects` in the pipeline class, `encontrar_disciplinas`
  in the older script; the two loops are the same). Each subject link on the
  course page is abstracted to its `href` and `title` attributes.
 */
module Subjects {
  import opened Results
  import opened Text
  import opened Sequences

  /** An `a.atividadeNome` element: `get_attribute` gives None for a missing attribute. */
  datatype SubjectElement = SubjectElement(href: Option<string>, title: Option<string>)

  /** `{"nome": ..., "link": ...}` */
  datatype Subject = Subject(name: string, link: string)

  /** Python truthiness of an attribute value: present and not empty. */
  predicate Truthy(a: Option<string>) {
    a.Some? && a.value != ""
  }

  /** The record the first loop appends for an element, if it appends one. */
  function Discover(e: SubjectElement): Option<Subject> {
    if Truthy(e.href) && Truthy(e.title) then Some(Subject(Strip(e.title.value), e.href.value)) else None
  }

  /** The link of the student's own index page, `f"{index_url}/{matricula}"`. */
  function SelfLink(indexUrl: string, matricula: string): string {
    indexUrl + "/" + matricula
  }

  /** The second loop's test: keep a subject unless its link is `selfLink`. */
  function Unless(selfLink: string): Subject -> Option<Subject> {
    (s: Subject) => if s.link != selfLink then Some(s) else None
  }

  /** The subjects the two loops return, in page order. */
  function SubjectsOf(elements: seq<SubjectElement>, indexUrl: string, matricula: string): seq<Subject> {
    FilterMap(FilterMap(elements, Discover), Unless(SelfLink(indexUrl, matricula)))
  }

  method FindSubjects(elements: seq<SubjectElement>, indexUrl: string, matricula: string)
    returns (filtered: seq<Subject>)
    ensures filtered == SubjectsOf(elements, indexUrl, matricula)
  {
    var info: seq<Subject> := [];
    for i := 0 to |elements|
      invariant info == FilterMap(elements[..i], Discover)
    {
      var e := elements[i];
      assert FilterMap(elements[..i + 1], Discover) == info + Kept(e, Discover) by {
        FilterMapSnoc(elements[..i], e, Discover);
        assert elements[..i + 1] == elements[..i] + [e];
      }
      if Truthy(e.href) && Truthy(e.title) {
        info := info + [Subject(Strip(e.title.value), e.href.value)];
      }
    }
    assert elements[..|elements|] == elements;
    var selfLink := SelfLink(indexUrl, matricula);
    filtered := [];
    for i := 0 to |info|
      invariant filtered == FilterMap(info[..i], Unless(selfLink))
    {
      var s := info[i];
      assert FilterMap(info[..i + 1], Unless(selfLink)) == filtered + Kept(s, Unless(selfLink)) by {
        FilterMapSnoc(info[..i], s, Unless(selfLink));
        assert info[..i + 1] == info[..i] + [s];
      }
      if s.link != selfLink {
        filtered := filtered + [s];
      }
    }
    assert info[..|info|] == info;
  }

  /**
    A subject is found exactly when some element has a non-empty href and
    title, the subject is (stripped title, href), and the href is not the
    student's own index link.
   */
  lemma SubjectsOfMember(elements: seq<SubjectElement>, indexUrl: string, matricula: string, s: Subject)
    ensures s in SubjectsOf(elements, indexUrl, matricula) <==>
      && s.link != SelfLink(indexUrl, matricula)
      && exists k :: 0 <= k < |elements| && Truthy(elements[k].href) && Truthy(elements[k].title)
                   && s == Subject(Strip(elements[k].title.value), elements[k].href.value)
  {
    var selfLink := SelfLink(indexUrl, matricula);
    var found := FilterMap(elements, Discover);
    FilterMapMember(found, Unless(selfLink), s);
    FilterMapMember(elements, Discover, s);
    if s in SubjectsOf(elements, indexUrl, matricula) {
      var j :| 0 <= j < |found| && Unless(selfLink)(found[j]) == Some(s);
      assert s in found;
    }
  }

  /** Every subject found has a non-empty link other than the student's own. */
  lemma SubjectsOfLinks(elements: seq<SubjectElement>, indexUrl: string, matricula: string)
    ensures forall s :: s in SubjectsOf(elements, indexUrl, matricula) ==>
      s.link != "" && s.link != SelfLink(indexUrl, matricula)
  {
    forall s | s in SubjectsOf(elements, indexUrl, matricula)
      ensures s.link != "" && s.link != SelfLink(indexUrl, matricula)
    {
      SubjectsOfMember(elements, indexUrl, matricula, s);
    }
  }

  /** Discovery keeps page order: the subjects of two runs of elements are those of each, in turn. */
  lemma SubjectsOfConcat(a: seq<SubjectElement>, b: seq<SubjectElement>, indexUrl: string, matricula: string)
    ensures SubjectsOf(a + b, indexUrl, matricula) == SubjectsOf(a, indexUrl, matricula) + SubjectsOf(b, indexUrl, matricula)
  {
    FilterMapConcat(a, b, Discover);
    FilterMapConcat(FilterMap(a, Discover), FilterMap(b, Discover), Unless(SelfLink(indexUrl, matricula)));
  }
}
