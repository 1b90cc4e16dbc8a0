/**
  The text of the iCalendar file written by `_generate_ics_file`: the
  template is cut at its first `BEGIN:VEVENT` into a header and an event
  template, the header is rendered with the student's data, and every
  activity of every subject gives an "Início" event and, when its end date
  differs, a "Fim" event. The document is the header, the events joined by
  line breaks, and the closing `END:VCALENDAR` line (sections 3.4 and 3.6.1
  of RFC 5545).
 */
module Calendar {
  import opened Results
  import opened Text
  import opened OrderedDict
  import opened Dates
  import opened Template
  import opened Pages
  import opened Pipeline

  const EventMarker: string := "BEGIN:VEVENT"
  const Closing: string := "\nEND:VCALENDAR\n"

  /** The configuration values the header uses. */
  datatype CourseMeta = CourseMeta(studentName: string, semester: string, courseName: string)

  function HeaderArgs(meta: CourseMeta): map<string, string> {
    map["nome_aluno" := meta.studentName, "semestre" := meta.semester, "nome_curso" := meta.courseName]
  }

  function EventArgs(kind: string, activityName: string, date: string, subject: string): map<string, string> {
    map["tipo_periodo" := kind, "nome_atividade" := activityName, "data_periodo" := date, "disciplina" := subject]
  }

  /** The stripped template cut at its first marker: the header and the event template, which keeps the marker. */
  function SplitTemplate(content: string): Result<(string, string)> {
    match SplitOnce(Strip(content), EventMarker)
    case None => Err(MissingEventMarker)
    case Some((header, rest)) => Ok((header, EventMarker + rest))
  }

  /** The header rendered with the student's data, stripped. */
  function RenderHeader(header: string, meta: CourseMeta): Result<string> {
    match Format(header, HeaderArgs(meta))
    case Err(e) => Err(e)
    case Ok(h) => Ok(Strip(h))
  }

  /** The parts of a period: `str(periodo).split(" - ")`. */
  function PeriodParts(period: string): seq<string> {
    Split(period, " - ")
  }

  /** The events of one activity of a subject, or the first error met while making them. */
  function ActivityEvents(eventTemplate: string, p: (string, Activity)): Result<seq<string>> {
    var (subject, a) := p;
    var parts := PeriodParts(a.period);
    match ConvertIcsDate(Remove(parts[0], '/'))
    case Err(e) => Err(e)
    case Ok(start) =>
      if |parts| < 2 then Err(PeriodWithoutSeparator(a.period))
      else
        match ConvertIcsDate(Remove(parts[1], '/'))
        case Err(e) => Err(e)
        case Ok(end) =>
          match Format(eventTemplate, EventArgs("Início", a.name, start, subject))
          case Err(e) => Err(e)
          case Ok(first) =>
            if start == end then Ok([first])
            else
              match Format(eventTemplate, EventArgs("Fim", a.name, end, subject))
              case Err(e) => Err(e)
              case Ok(second) => Ok([first, second])
  }

  /** The activities of one subject, each paired with the subject's name. */
  function Tagged(subject: string, acts: seq<Activity>): (r: seq<(string, Activity)>)
    ensures |r| == |acts|
  {
    seq(|acts|, k requires 0 <= k < |acts| => (subject, acts[k]))
  }

  /** Every activity of the dict, subject by subject in dict order, then in list order. */
  function Pairs(info: Items<SubjectInfo<Activity>>): seq<(string, Activity)> {
    if info == [] then []
    else Pairs(info[..|info| - 1]) + Tagged(info[|info| - 1].0, info[|info| - 1].1.activities)
  }

  /** The results of `f` on the items, concatenated in order; the first error wins. */
  function Collect<P>(ps: seq<P>, f: P -> Result<seq<string>>): Result<seq<string>> {
    if ps == [] then Ok([])
    else Joined(Collect(ps[..|ps| - 1], f), f(ps[|ps| - 1]))
  }

  /** Appending what one more item gives, unless an error has come first. */
  function Joined(done: Result<seq<string>>, more: Result<seq<string>>): Result<seq<string>> {
    match done
    case Err(e) => Err(e)
    case Ok(d) =>
      match more
      case Err(e) => Err(e)
      case Ok(m) => Ok(d + m)
  }

  function Renderer(eventTemplate: string): ((string, Activity)) -> Result<seq<string>> {
    (p: (string, Activity)) => ActivityEvents(eventTemplate, p)
  }

  /** The events of the activities in order, or the first error. */
  function EventsOf(eventTemplate: string, ps: seq<(string, Activity)>): Result<seq<string>> {
    Collect(ps, Renderer(eventTemplate))
  }

  /** `f"{header}\n" + "\n".join(eventos) + "\nEND:VCALENDAR\n"` */
  function Document(header: string, events: seq<string>): string {
    header + "\n" + Join(events, "\n") + Closing
  }

  /** The text `_generate_ics_file` writes, or the error that stops it. */
  function IcsDocument(content: string, meta: CourseMeta, info: Items<SubjectInfo<Activity>>): (r: Result<string>)
    ensures SplitTemplate(content).Err? ==> r == Err(MissingEventMarker)
    ensures r.Ok? ==> EndsWith(r.value, Closing)
  {
    match SplitTemplate(content)
    case Err(e) => Err(e)
    case Ok((header, eventTemplate)) =>
      match RenderHeader(header, meta)
      case Err(e) => Err(e)
      case Ok(h) =>
        match EventsOf(eventTemplate, Pairs(info))
        case Err(e) => Err(e)
        case Ok(events) =>
          DocumentFraming(h, events);
          Ok(Document(h, events))
  }

  /**
    The events of one activity, as the body of the inner loop makes them; an
    error ends the generation. These are the source's statements in their
    order, with an early return where the source raises. `ActivityEvents` is
    the same computation as an expression, which the lemmas reason about.
   */
  method MakeEvents(eventTemplate: string, disciplina: string, atividade: Activity) returns (r: Result<seq<string>>)
    ensures r == ActivityEvents(eventTemplate, (disciplina, atividade))
  {
    var periodo := Split(atividade.period, " - ");
    var inicio := ConvertIcsDate(Remove(periodo[0], '/'));
    if inicio.Err? {
      return Err(inicio.error);
    }
    if |periodo| < 2 {
      return Err(PeriodWithoutSeparator(atividade.period));
    }
    var fim := ConvertIcsDate(Remove(periodo[1], '/'));
    if fim.Err? {
      return Err(fim.error);
    }
    var first := Format(eventTemplate, EventArgs("Início", atividade.name, inicio.value, disciplina));
    if first.Err? {
      return Err(first.error);
    }
    if inicio.value == fim.value {
      return Ok([first.value]);
    }
    var second := Format(eventTemplate, EventArgs("Fim", atividade.name, fim.value, disciplina));
    if second.Err? {
      return Err(second.error);
    }
    return Ok([first.value, second.value]);
  }

  /** The inner loop: the events of one subject's activities, after the events made so far. */
  method CollectSubject(eventTemplate: string, ghost before: seq<(string, Activity)>, disciplina: string,
                        acts: seq<Activity>, eventos: seq<string>)
    returns (r: Result<seq<string>>)
    requires EventsOf(eventTemplate, before) == Ok(eventos)
    ensures r == EventsOf(eventTemplate, before + Tagged(disciplina, acts))
  {
    var out := eventos;
    assert before + Tagged(disciplina, acts[..0]) == before;
    for j := 0 to |acts|
      invariant EventsOf(eventTemplate, before + Tagged(disciplina, acts[..j])) == Ok(out)
    {
      ghost var done := before + Tagged(disciplina, acts[..j]);
      var more := MakeEvents(eventTemplate, disciplina, acts[j]);
      TaggedSnoc(before, disciplina, acts, j);
      if more.Err? {
        assert EventsOf(eventTemplate, before + Tagged(disciplina, acts)) == Err(more.error) by {
          CollectStep(done, (disciplina, acts[j]), Renderer(eventTemplate), out);
          TaggedPrefix(before, disciplina, acts, j);
          CollectErrPrefix(done + [(disciplina, acts[j])], before + Tagged(disciplina, acts), Renderer(eventTemplate));
        }
        return Err(more.error);
      }
      assert EventsOf(eventTemplate, before + Tagged(disciplina, acts[..j + 1])) == Ok(out + more.value) by {
        CollectStep(done, (disciplina, acts[j]), Renderer(eventTemplate), out);
      }
      out := out + more.value;
    }
    assert acts[..|acts|] == acts;
    return Ok(out);
  }

  /** The outer loop over the dict; the first error ends it. */
  method CollectEvents(eventTemplate: string, info: Items<SubjectInfo<Activity>>) returns (r: Result<seq<string>>)
    ensures r == EventsOf(eventTemplate, Pairs(info))
  {
    var eventos: seq<string> := [];
    for i := 0 to |info|
      invariant EventsOf(eventTemplate, Pairs(info[..i])) == Ok(eventos)
    {
      var (disciplina, dados) := info[i];
      var res := CollectSubject(eventTemplate, Pairs(info[..i]), disciplina, dados.activities, eventos);
      PairsSnoc(info, i);
      if res.Err? {
        assert EventsOf(eventTemplate, Pairs(info)) == res by {
          PairsPrefixOf(info, i + 1);
          CollectErrPrefix(Pairs(info[..i + 1]), Pairs(info), Renderer(eventTemplate));
        }
        return res;
      }
      eventos := res.value;
    }
    assert info[..|info|] == info;
    return Ok(eventos);
  }

  /** `_generate_ics_file` without the file access: the template's content in, the document text out. */
  method GenerateIcs(content: string, meta: CourseMeta, info: Items<SubjectInfo<Activity>>) returns (r: Result<string>)
    ensures r == IcsDocument(content, meta, info)
  {
    var template := Strip(content);
    var cut := SplitOnce(template, EventMarker);
    if cut.None? {
      return Err(MissingEventMarker);
    }
    var eventTemplate := EventMarker + cut.value.1;
    var rendered := Format(cut.value.0, HeaderArgs(meta));
    if rendered.Err? {
      return Err(rendered.error);
    }
    var header := Strip(rendered.value);
    var eventos := CollectEvents(eventTemplate, info);
    if eventos.Err? {
      return Err(eventos.error);
    }
    return Ok(Document(header, eventos.value));
  }

  /** One more item adds what it gives at the end, unless it fails. */
  lemma CollectStep<P>(ps: seq<P>, p: P, f: P -> Result<seq<string>>, done: seq<string>)
    requires Collect(ps, f) == Ok(done)
    ensures f(p).Err? ==> Collect(ps + [p], f) == Err(f(p).error)
    ensures f(p).Ok? ==> Collect(ps + [p], f) == Ok(done + f(p).value)
  {
    assert (ps + [p])[..|ps|] == ps;
  }

  lemma TaggedSnoc(before: seq<(string, Activity)>, subject: string, acts: seq<Activity>, j: nat)
    requires j < |acts|
    ensures before + Tagged(subject, acts[..j + 1]) == before + Tagged(subject, acts[..j]) + [(subject, acts[j])]
  {
    assert Tagged(subject, acts[..j + 1]) == Tagged(subject, acts[..j]) + [(subject, acts[j])];
  }

  lemma PairsSnoc(info: Items<SubjectInfo<Activity>>, i: nat)
    requires i < |info|
    ensures Pairs(info[..i + 1]) == Pairs(info[..i]) + Tagged(info[i].0, info[i].1.activities)
  {
    assert info[..i + 1][..i] == info[..i];
  }

  /** The first error stops the generation: a failing prefix decides the result. */
  lemma {:induction false} CollectErrPrefix<P>(ps: seq<P>, qs: seq<P>, f: P -> Result<seq<string>>)
    requires ps <= qs
    requires Collect(ps, f).Err?
    ensures Collect(qs, f) == Collect(ps, f)
    decreases |qs|
  {
    if |qs| > |ps| {
      var init := qs[..|qs| - 1];
      assert ps <= init;
      CollectErrPrefix(ps, init, f);
    } else {
      assert ps == qs;
    }
  }

  /** The activities handled so far, and the current one, lead the activities of the subject. */
  lemma TaggedPrefix(before: seq<(string, Activity)>, subject: string, acts: seq<Activity>, j: nat)
    requires j < |acts|
    ensures before + Tagged(subject, acts[..j]) + [(subject, acts[j])] <= before + Tagged(subject, acts)
  {
    assert Tagged(subject, acts[..j]) + [(subject, acts[j])] <= Tagged(subject, acts);
  }

  /** The activities of the first subjects lead the activities of the whole dict. */
  lemma {:induction false} PairsPrefixOf(info: Items<SubjectInfo<Activity>>, n: nat)
    requires n <= |info|
    ensures Pairs(info[..n]) <= Pairs(info)
    decreases |info| - n
  {
    if n < |info| {
      PairsPrefixOf(info, n + 1);
      assert info[..n + 1][..n] == info[..n];
    } else {
      assert info[..n] == info;
    }
  }

  /** A period the generation accepts: two dates in `dd/mm/yy` form around `" - "`. */
  predicate ValidPeriod(period: string) {
    var parts := PeriodParts(period);
    |parts| >= 2 && ConvertIcsDate(Remove(parts[0], '/')).Ok? && ConvertIcsDate(Remove(parts[1], '/')).Ok?
  }

  /** Start and end are the same text once the slashes are gone. */
  predicate SameDay(period: string) {
    var parts := PeriodParts(period);
    |parts| >= 2 && Remove(parts[0], '/') == Remove(parts[1], '/')
  }

  /** How many events a period gives: one for a single day, two for a range. */
  function EventCount(ps: seq<(string, Activity)>): nat {
    if ps == [] then 0
    else EventCount(ps[..|ps| - 1]) + (if SameDay(ps[|ps| - 1].1.period) then 1 else 2)
  }

  /**
    The template is usable exactly when its stripped text contains the event
    marker; the header then holds no marker, and header and event template
    together are the stripped text, the event template starting at the marker.
   */
  lemma SplitTemplateSpec(content: string)
    ensures SplitTemplate(content).Ok? <==> Contains(Strip(content), EventMarker)
    ensures SplitTemplate(content).Err? ==> SplitTemplate(content).error == MissingEventMarker
    ensures SplitTemplate(content).Ok? ==>
      && SplitTemplate(content).value.0 + SplitTemplate(content).value.1 == Strip(content)
      && StartsWith(SplitTemplate(content).value.1, EventMarker)
      && !Contains(SplitTemplate(content).value.0, EventMarker)
  {
    var t := Strip(content);
    if SplitTemplate(content).Ok? {
      var (h, rest) := SplitOnce(t, EventMarker).value;
      SplitOnceFirst(t, EventMarker);
      assert t == h + EventMarker + rest;
      assert (EventMarker + rest)[..|EventMarker|] == EventMarker;
      ContainsIff(h, EventMarker);
      if Contains(h, EventMarker) {
        var i :| OccursAt(h, EventMarker, i);
        assert h[i..i + |EventMarker|] == t[i..i + |EventMarker|];
        assert OccursAt(t, EventMarker, i);
      }
    }
  }

  /**
    An activity gives events exactly when its period is valid and the event
    template renders with the four event fields; it then gives one event when
    start and end are the same day and two otherwise.
   */
  lemma ActivityEventsSpec(eventTemplate: string, p: (string, Activity))
    ensures ActivityEvents(eventTemplate, p).Ok? <==>
      ValidPeriod(p.1.period) && Format(eventTemplate, EventArgs("", "", "", "")).Ok?
    ensures ActivityEvents(eventTemplate, p).Ok? ==>
      |ActivityEvents(eventTemplate, p).value| == if SameDay(p.1.period) then 1 else 2
  {
    var (subject, a) := p;
    var parts := PeriodParts(a.period);
    var blank := EventArgs("", "", "", "");
    if ValidPeriod(a.period) {
      var d0, d1 := Remove(parts[0], '/'), Remove(parts[1], '/');
      var start, end := ConvertIcsDate(d0).value, ConvertIcsDate(d1).value;
      ConvertInjective(d0, d1);
      assert EventArgs("Início", a.name, start, subject).Keys == blank.Keys;
      assert EventArgs("Fim", a.name, end, subject).Keys == blank.Keys;
      FormatOkSameKeys(eventTemplate, EventArgs("Início", a.name, start, subject), blank);
      FormatOkSameKeys(eventTemplate, EventArgs("Fim", a.name, end, subject), blank);
    }
  }

  /** The converted start date of a valid period, `inicio`. */
  function StartDate(period: string): (d: string)
    requires ValidPeriod(period)
    ensures IsIcsDate(d)
  {
    ConvertedIsIcsDate(Remove(PeriodParts(period)[0], '/'));
    ConvertIcsDate(Remove(PeriodParts(period)[0], '/')).value
  }

  /** The converted end date of a valid period, `fim`. */
  function EndDate(period: string): (d: string)
    requires ValidPeriod(period)
    ensures IsIcsDate(d)
  {
    ConvertedIsIcsDate(Remove(PeriodParts(period)[1], '/'));
    ConvertIcsDate(Remove(PeriodParts(period)[1], '/')).value
  }

  /**
    The first event is the template rendered as "Início" with the start date,
    the second (when there is one) as "Fim" with the end date; both carry the
    activity's name and its subject. A second event appears exactly when the
    two converted dates differ.
   */
  lemma ActivityEventsContent(eventTemplate: string, p: (string, Activity))
    requires ActivityEvents(eventTemplate, p).Ok?
    ensures ValidPeriod(p.1.period)
    ensures ActivityEvents(eventTemplate, p).value[0]
         == Format(eventTemplate, EventArgs("Início", p.1.name, StartDate(p.1.period), p.0)).value
    ensures |ActivityEvents(eventTemplate, p).value| == 2 <==> StartDate(p.1.period) != EndDate(p.1.period)
    ensures |ActivityEvents(eventTemplate, p).value| == 2 ==>
      ActivityEvents(eventTemplate, p).value[1]
         == Format(eventTemplate, EventArgs("Fim", p.1.name, EndDate(p.1.period), p.0)).value
  {
    ActivityEventsSpec(eventTemplate, p);
  }

  /**
    A period with no `" - "` whose first date is valid stops the whole
    generation with `PeriodWithoutSeparator` (the `IndexError` of `periodo[1]`).
   */
  lemma NoSeparatorAborts(eventTemplate: string, subject: string, a: Activity)
    requires !Contains(a.period, " - ")
    requires ConvertIcsDate(Remove(a.period, '/')).Ok?
    ensures ActivityEvents(eventTemplate, (subject, a)) == Err(PeriodWithoutSeparator(a.period))
  {
    SplitHasSecondPart(a.period, " - ");
    SplitFirstPart(a.period, " - ");
  }

  /** The fold succeeds exactly when every item succeeds. */
  lemma {:induction false} CollectOk<P>(ps: seq<P>, f: P -> Result<seq<string>>)
    ensures Collect(ps, f).Ok? <==> forall k :: 0 <= k < |ps| ==> f(ps[k]).Ok?
    decreases |ps|
  {
    if ps != [] {
      var init := ps[..|ps| - 1];
      CollectOk(init, f);
      if Collect(ps, f).Ok? {
        forall k | 0 <= k < |ps| ensures f(ps[k]).Ok? {
          if k < |init| {
            assert ps[k] == init[k];
          }
        }
      } else if Collect(init, f).Err? {
        var k :| 0 <= k < |init| && f(init[k]).Err?;
        assert ps[k] == init[k];
      }
    }
  }

  /** The events come out exactly when every activity gives its events. */
  lemma EventsOfOk(eventTemplate: string, ps: seq<(string, Activity)>)
    ensures EventsOf(eventTemplate, ps).Ok? <==> forall k :: 0 <= k < |ps| ==> ActivityEvents(eventTemplate, ps[k]).Ok?
  {
    CollectOk(ps, Renderer(eventTemplate));
  }

  /** The number of events: one per single-day activity, two per range. */
  lemma {:induction false} EventsOfCount(eventTemplate: string, ps: seq<(string, Activity)>)
    requires EventsOf(eventTemplate, ps).Ok?
    ensures |EventsOf(eventTemplate, ps).value| == EventCount(ps)
    decreases |ps|
  {
    if ps != [] {
      var init := ps[..|ps| - 1];
      assert EventsOf(eventTemplate, ps) == Joined(EventsOf(eventTemplate, init), ActivityEvents(eventTemplate, ps[|ps| - 1]));
      EventsOfCount(eventTemplate, init);
      ActivityEventsSpec(eventTemplate, ps[|ps| - 1]);
    }
  }

  /** Each event of one activity, rendered from a template that starts at the marker, starts with `BEGIN:VEVENT`. */
  lemma ActivityEventsStartWithMarker(rest: string, p: (string, Activity))
    ensures ActivityEvents(EventMarker + rest, p).Ok? ==>
      forall k :: 0 <= k < |ActivityEvents(EventMarker + rest, p).value| ==>
        StartsWith(ActivityEvents(EventMarker + rest, p).value[k], EventMarker)
  {
    var (subject, a) := p;
    var parts := PeriodParts(a.period);
    if ActivityEvents(EventMarker + rest, p).Ok? {
      assert NoBraces(EventMarker);
      var start := ConvertIcsDate(Remove(parts[0], '/')).value;
      var end := ConvertIcsDate(Remove(parts[1], '/')).value;
      var first := EventArgs("Início", a.name, start, subject);
      var second := EventArgs("Fim", a.name, end, subject);
      FormatLiteralPrefix(EventMarker, rest, first);
      FormatLiteralPrefix(EventMarker, rest, second);
      assert (EventMarker + Format(rest, first).value)[..|EventMarker|] == EventMarker;
      if start != end {
        assert (EventMarker + Format(rest, second).value)[..|EventMarker|] == EventMarker;
      }
    }
  }

  /** Every event rendered from a template that starts at the marker starts with `BEGIN:VEVENT`. */
  lemma {:induction false} EventsStartWithMarker(rest: string, ps: seq<(string, Activity)>)
    ensures EventsOf(EventMarker + rest, ps).Ok? ==>
      forall k :: 0 <= k < |EventsOf(EventMarker + rest, ps).value| ==>
        StartsWith(EventsOf(EventMarker + rest, ps).value[k], EventMarker)
    decreases |ps|
  {
    var t := EventMarker + rest;
    if ps != [] && EventsOf(t, ps).Ok? {
      var init := ps[..|ps| - 1];
      assert EventsOf(t, ps) == Joined(EventsOf(t, init), ActivityEvents(t, ps[|ps| - 1]));
      EventsStartWithMarker(rest, init);
      ActivityEventsStartWithMarker(rest, ps[|ps| - 1]);
      var done := EventsOf(t, init).value;
      var more := ActivityEvents(t, ps[|ps| - 1]).value;
      forall k | 0 <= k < |done| + |more| ensures StartsWith((done + more)[k], EventMarker) {
        if k < |done| { assert (done + more)[k] == done[k]; } else { assert (done + more)[k] == more[k - |done|]; }
      }
    }
  }

  /**
    The document is written exactly when the template has the marker, its
    header renders, and every activity gives its events.
   */
  lemma IcsDocumentOk(content: string, meta: CourseMeta, info: Items<SubjectInfo<Activity>>)
    ensures IcsDocument(content, meta, info).Ok? <==>
      && SplitTemplate(content).Ok?
      && RenderHeader(SplitTemplate(content).value.0, meta).Ok?
      && forall k :: 0 <= k < |Pairs(info)| ==> ActivityEvents(SplitTemplate(content).value.1, Pairs(info)[k]).Ok?
  {
    if SplitTemplate(content).Ok? {
      EventsOfOk(SplitTemplate(content).value.1, Pairs(info));
    }
  }

  /** A written document starts with the rendered header and a line break and ends with `END:VCALENDAR`. */
  lemma IcsDocumentFraming(content: string, meta: CourseMeta, info: Items<SubjectInfo<Activity>>)
    requires IcsDocument(content, meta, info).Ok?
    ensures SplitTemplate(content).Ok? && RenderHeader(SplitTemplate(content).value.0, meta).Ok?
    ensures StartsWith(IcsDocument(content, meta, info).value, RenderHeader(SplitTemplate(content).value.0, meta).value + "\n")
    ensures EndsWith(IcsDocument(content, meta, info).value, Closing)
  {
    var (h, t) := SplitTemplate(content).value;
    DocumentFraming(RenderHeader(h, meta).value, EventsOf(t, Pairs(info)).value);
  }

  /** The document text is the header line, then the events, then the closing line. */
  lemma DocumentFraming(header: string, events: seq<string>)
    ensures StartsWith(Document(header, events), header + "\n")
    ensures EndsWith(Document(header, events), Closing)
  {
    var doc := Document(header, events);
    assert doc == (header + "\n") + (Join(events, "\n") + Closing);
    assert doc[..|header + "\n"|] == header + "\n";
    assert doc[|doc| - |Closing|..] == Closing;
  }
}
