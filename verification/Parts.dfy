/** One document cut into prose and the widgets it names. The events come from a
    markdown parser; how a run is rendered and which destinations are safe are given. */
module Parts {
  import opened Wrappers
  import opened Characters

  datatype Event =
    | Fenced(info: string)
    | Indented
    | EndBlock
    | Text(text: string)
    | Html(raw: string)
    | InlineHtml(raw: string)
    | Link(url: string, title: string)
    | Image(url: string, title: string)
    | Other(tag: nat)

  datatype Ask = Ask(widgets: seq<string>, render: seq<Event> -> string, urlIsSafe: string -> bool)

  datatype Part = Part(markup: string, widget: string, argument: string)

  datatype Refusal =
    | NamesNothing
    | NamesMore(widget: string, extra: string)
    | NotAName(widget: string)
    | OffersNothing(widget: string)
    | NotOffered(widget: string)

  // ---- the two rewrites ----

  const REFUSED_URL := "about:blank#blocked"

  function Stripped(url: string): string {
    if url == "" then "" else (if IsStripped(url[0]) then "" else [url[0]]) + Stripped(url[1..])
  }

  predicate IsSafe(ask: Ask, url: string) {
    ask.urlIsSafe(Stripped(url))
  }

  function SafeUrl(ask: Ask, url: string): string {
    if IsSafe(ask, url) then url else REFUSED_URL
  }

  function Neutralise(ask: Ask, event: Event): Event {
    match event
    case Html(raw) => Text(raw)
    case InlineHtml(raw) => Text(raw)
    case Link(url, title) => Link(SafeUrl(ask, url), title)
    case Image(url, title) => Image(SafeUrl(ask, url), title)
    case _ => event
  }

  function NeutraliseAll(ask: Ask, events: seq<Event>): (r: seq<Event>)
    ensures |r| == |events| && forall i :: 0 <= i < |r| ==> r[i] == Neutralise(ask, events[i])
  {
    if events == [] then [] else [Neutralise(ask, events[0])] + NeutraliseAll(ask, events[1..])
  }

  predicate GoesNowhereOrSafe(ask: Ask, url: string) {
    url == REFUSED_URL || IsSafe(ask, url)
  }

  /** Nothing the renderer would pass through as markup, and no destination it was not
      told is safe. */
  predicate IsHarmless(ask: Ask, event: Event) {
    match event
    case Html(_) => false
    case InlineHtml(_) => false
    case Link(url, _) => GoesNowhereOrSafe(ask, url)
    case Image(url, _) => GoesNowhereOrSafe(ask, url)
    case _ => true
  }

  lemma SafeUrlIsExact(ask: Ask, url: string)
    ensures
      var safe := SafeUrl(ask, url);
      && GoesNowhereOrSafe(ask, safe)
      && (safe == url <==> GoesNowhereOrSafe(ask, url))
  {
  }

  /** Where a link or an image goes, as one event with another destination. */
  function WithUrl(event: Event, url: string): Event
    requires event.Link? || event.Image?
  {
    if event.Link? then Link(url, event.title) else Image(url, event.title)
  }

  lemma WithUrlIsKeptIff(event: Event, url: string)
    requires event.Link? || event.Image?
    ensures WithUrl(event, url) == event <==> url == event.url
  {
  }

  /** What is rewritten is harmless, and only what was not harmless is rewritten. */
  lemma NeutraliseIsExact(ask: Ask, event: Event)
    ensures IsHarmless(ask, Neutralise(ask, event))
    ensures Neutralise(ask, event) == event <==> IsHarmless(ask, event)
  {
    if event.Link? || event.Image? {
      SafeUrlIsExact(ask, event.url);
      WithUrlIsKeptIff(event, SafeUrl(ask, event.url));
      assert Neutralise(ask, event) == WithUrl(event, SafeUrl(ask, event.url));
    }
  }

  /** The characters of an event that are text to be seen, or would be if it were not markup. */
  function Legible(event: Event): string {
    match event
    case Text(text) => text
    case Html(raw) => raw
    case InlineHtml(raw) => raw
    case _ => ""
  }

  /** Rewriting loses nothing but a destination: markup is shown as the text it was, and a
      link or an image stays one, with its title. */
  lemma NeutraliseKeepsTheRest(ask: Ask, event: Event)
    ensures
      var rewritten := Neutralise(ask, event);
      && Legible(rewritten) == Legible(event)
      && (rewritten.Text? <==> event.Text? || event.Html? || event.InlineHtml?)
      && (event.Link? ==> rewritten == Link(rewritten.url, event.title))
      && (event.Image? ==> rewritten == Image(rewritten.url, event.title))
      && (rewritten.Link? && rewritten != event ==> rewritten.url == "about:blank#blocked")
  {
    match event
    case Link(url, title) => assert Neutralise(ask, event) == Link(SafeUrl(ask, url), title);
    case Image(url, title) => assert Neutralise(ask, event) == Image(SafeUrl(ask, url), title);
    case _ =>
  }

  function Markdown(ask: Ask, events: seq<Event>): string {
    ask.render(NeutraliseAll(ask, events))
  }

  // ---- naming a widget ----

  predicate IsWidgetFence(info: string) {
    Words(info) != [] && Words(info)[0] == "zd"
  }

  predicate IsAlphanumeric(c: char) {
    'a' <= c <= 'z' || 'A' <= c <= 'Z' || '0' <= c <= '9'
  }

  predicate IsWidgetName(name: string) {
    name != "" && 'A' <= name[0] <= 'Z' && forall i :: 1 <= i < |name| ==> IsAlphanumeric(name[i])
  }

  function WidgetNamed(info: string, offered: seq<string>): Result<string, Refusal> {
    var words := Words(info);
    if |words| < 2 then Err(NamesNothing)
    else if |words| > 2 then Err(NamesMore(words[1], words[2]))
    else if !IsWidgetName(words[1]) then Err(NotAName(words[1]))
    else if offered == [] then Err(OffersNothing(words[1]))
    else if words[1] !in offered then Err(NotOffered(words[1]))
    else Ok(words[1])
  }

  /** A fence is accepted for a widget exactly when it says the language's name, that
      widget's name and nothing more, and the program offers the widget. */
  lemma AcceptedIff(info: string, offered: seq<string>, widget: string)
    ensures IsWidgetFence(info) && WidgetNamed(info, offered) == Ok(widget)
            <==> Words(info) == ["zd", widget] && IsWidgetName(widget) && widget in offered
  {
    var words := Words(info);
    if |words| == 2 {
      assert words == [words[0], words[1]];
    }
  }

  /** Any offered name can be written, with any white space around it. */
  lemma CanBeNamed(before: string, between: string, after: string, widget: string, offered: seq<string>)
    requires IsWidgetName(widget) && widget in offered
    requires AllSpace(before) && AllSpace(between) && AllSpace(after) && between != ""
    ensures
      var info := before + ("zd" + (between + (widget + after)));
      IsWidgetFence(info) && WidgetNamed(info, offered) == Ok(widget)
  {
    SpacesAreSkipped(before, "zd" + (between + (widget + after)));
    FirstWord("zd", between + (widget + after));
    SpacesAreSkipped(between, widget + after);
    FirstWord(widget, after);
    SpacesAreSkipped(after, "");
    assert after + "" == after;
  }

  // ---- cutting ----

  function ProsePart(ask: Ask, run: seq<Event>): Option<Part> {
    var markup := ask.render(run);
    if AllSpace(markup) then None else Some(Part(markup, "", ""))
  }

  function Pushed(parts: seq<Part>, part: Option<Part>): seq<Part> {
    match part case None => parts case Some(p) => parts + [p]
  }

  /** What the scan makes of the events still to come. */
  function Feed(
    ask: Ask, events: seq<Event>, found: seq<Part>, run: seq<Event>, naming: Option<(string, string)>)
    : Result<seq<Part>, Refusal>
    decreases |events|
  {
    if events == [] then Ok(Pushed(found, ProsePart(ask, run)))
    else
      var event, rest := events[0], events[1..];
      if event.Fenced? && IsWidgetFence(event.info) then
        match WidgetNamed(event.info, ask.widgets)
        case Err(e) => Err(e)
        case Ok(widget) => Feed(ask, rest, Pushed(found, ProsePart(ask, run)), [], Some((widget, "")))
      else if naming.None? then Feed(ask, rest, found, run + [Neutralise(ask, event)], None)
      else if event.Text? then Feed(ask, rest, found, run, Some((naming.value.0, naming.value.1 + event.text)))
      else if event.EndBlock? then Feed(ask, rest, found + [Part("", naming.value.0, naming.value.1)], run, None)
      else Feed(ask, rest, found, run, naming)
  }

  method Cut(ask: Ask, events: seq<Event>) returns (r: Result<seq<Part>, Refusal>)
    ensures r == Feed(ask, events, [], [], None)
  {
    var found: seq<Part> := [];
    var run: seq<Event> := [];
    var naming: Option<(string, string)> := None;
    for i := 0 to |events|
      invariant Feed(ask, events[i..], found, run, naming) == Feed(ask, events, [], [], None)
    {
      var event := events[i];
      assert events[i..][1..] == events[i + 1..];
      if event.Fenced? && IsWidgetFence(event.info) {
        var widget := WidgetNamed(event.info, ask.widgets);
        if widget.Err? {
          return Err(widget.error);
        }
        var prose := ProsePart(ask, run);
        run := [];
        if prose.Some? {
          found := found + [prose.value];
        }
        naming := Some((widget.value, ""));
      } else if event.Text? && naming.Some? {
        naming := Some((naming.value.0, naming.value.1 + event.text));
      } else if event.EndBlock? && naming.Some? {
        found := found + [Part("", naming.value.0, naming.value.1)];
        naming := None;
      } else if naming.None? {
        run := run + [Neutralise(ask, event)];
      }
    }
    var prose := ProsePart(ask, run);
    if prose.Some? {
      found := found + [prose.value];
    }
    r := Ok(found);
  }

  // ---- what a document is ----

  /** A widget fence, what is in it, and the prose up to the next. */
  datatype Section = Section(info: string, body: seq<Event>, prose: seq<Event>)

  datatype Document = Document(opening: seq<Event>, sections: seq<Section>)

  predicate OpensWidget(event: Event) {
    event.Fenced? && IsWidgetFence(event.info)
  }

  ghost predicate IsProse(events: seq<Event>) {
    forall i :: 0 <= i < |events| ==> !OpensWidget(events[i])
  }

  ghost predicate IsBody(events: seq<Event>) {
    forall i :: 0 <= i < |events| ==> !OpensWidget(events[i]) && !events[i].EndBlock?
  }

  ghost predicate IsSection(s: Section) {
    IsWidgetFence(s.info) && IsBody(s.body) && IsProse(s.prose)
  }

  ghost predicate IsDocument(d: Document) {
    IsProse(d.opening) && forall i :: 0 <= i < |d.sections| ==> IsSection(d.sections[i])
  }

  function SectionEvents(s: Section): seq<Event> {
    [Fenced(s.info)] + s.body + [EndBlock] + s.prose
  }

  function SectionsEvents(sections: seq<Section>): seq<Event> {
    if sections == [] then [] else SectionEvents(sections[0]) + SectionsEvents(sections[1..])
  }

  function Events(d: Document): seq<Event> {
    d.opening + SectionsEvents(d.sections)
  }

  /** The text in a fence, put together. */
  function Said(body: seq<Event>): string {
    if body == [] then "" else (if body[0].Text? then body[0].text else "") + Said(body[1..])
  }

  /** Text further on is put behind. */
  lemma {:induction false} SaidJoins(a: seq<Event>, b: seq<Event>)
    ensures Said(a + b) == Said(a) + Said(b)
    ensures forall text: string :: Said([Text(text)]) == text
  {
    if a == [] {
      assert a + b == b;
    } else {
      assert (a + b)[1..] == a[1..] + b && (a + b)[0] == a[0];
      SaidJoins(a[1..], b);
      Regroup(if a[0].Text? then a[0].text else "", Said(a[1..]), Said(b));
    }
    forall text: string ensures Said([Text(text)]) == text {
      assert [Text(text)][1..] == [];
    }
  }

  function Prose(ask: Ask, events: seq<Event>): seq<Part> {
    Pushed([], ProsePart(ask, NeutraliseAll(ask, events)))
  }

  function SectionsParts(ask: Ask, sections: seq<Section>): Result<seq<Part>, Refusal> {
    if sections == [] then Ok([])
    else
      match WidgetNamed(sections[0].info, ask.widgets)
      case Err(e) => Err(e)
      case Ok(widget) =>
        match SectionsParts(ask, sections[1..])
        case Err(e) => Err(e)
        case Ok(rest) => Ok([Part("", widget, Said(sections[0].body))] + Prose(ask, sections[0].prose) + rest)
  }

  /** The prose and the widgets in order, or the first refusal. */
  function DocumentParts(ask: Ask, d: Document): Result<seq<Part>, Refusal> {
    match SectionsParts(ask, d.sections)
    case Err(e) => Err(e)
    case Ok(rest) => Ok(Prose(ask, d.opening) + rest)
  }

  // ---- the scan cuts documents ----

  lemma {:induction false} FeedProse(
    ask: Ask, prose: seq<Event>, rest: seq<Event>, found: seq<Part>, run: seq<Event>)
    requires IsProse(prose)
    ensures Feed(ask, prose + rest, found, run, None) == Feed(ask, rest, found, run + NeutraliseAll(ask, prose), None)
    decreases |prose|
  {
    if prose == [] {
      assert prose + rest == rest && run + NeutraliseAll(ask, prose) == run;
    } else {
      var one := [Neutralise(ask, prose[0])];
      assert (prose + rest)[1..] == prose[1..] + rest && (prose + rest)[0] == prose[0];
      FeedProse(ask, prose[1..], rest, found, run + one);
      assert run + one + NeutraliseAll(ask, prose[1..]) == run + NeutraliseAll(ask, prose);
    }
  }

  lemma {:induction false} FeedBody(
    ask: Ask, body: seq<Event>, rest: seq<Event>, found: seq<Part>, run: seq<Event>, widget: string, said: string)
    requires IsBody(body)
    ensures Feed(ask, body + ([EndBlock] + rest), found, run, Some((widget, said)))
            == Feed(ask, rest, found + [Part("", widget, said + Said(body))], run, None)
    decreases |body|
  {
    var events := body + ([EndBlock] + rest);
    if body == [] {
      assert events[0] == EndBlock && events[1..] == rest && said + Said(body) == said;
    } else {
      var one := if body[0].Text? then body[0].text else "";
      assert events[0] == body[0] && events[1..] == body[1..] + ([EndBlock] + rest);
      assert said + "" == said;
      FeedInBody(ask, events, found, run, widget, said, said + one);
      FeedBody(ask, body[1..], rest, found, run, widget, said + one);
      Regroup(said, one, Said(body[1..]));
    }
  }

  /** Inside a fence only text is kept. */
  lemma FeedInBody(
    ask: Ask, events: seq<Event>, found: seq<Part>, run: seq<Event>, widget: string, said: string, more: string)
    requires events != [] && !OpensWidget(events[0]) && !events[0].EndBlock?
    requires more == if events[0].Text? then said + events[0].text else said
    ensures Feed(ask, events, found, run, Some((widget, said)))
            == Feed(ask, events[1..], found, run, Some((widget, more)))
  {
  }

  /** A section adds its widget, and leaves its prose to come. */
  lemma FeedSection(
    ask: Ask, s: Section, rest: seq<Event>, found: seq<Part>, run: seq<Event>)
    requires IsSection(s)
    ensures Feed(ask, SectionEvents(s) + rest, found, run, None) ==
            match WidgetNamed(s.info, ask.widgets)
            case Err(e) => Err(e)
            case Ok(widget) =>
              Feed(ask, rest, Pushed(found, ProsePart(ask, run)) + [Part("", widget, Said(s.body))],
                   NeutraliseAll(ask, s.prose), None)
  {
    var events := SectionEvents(s) + rest;
    var later := s.prose + rest;
    assert events[0] == Fenced(s.info) && events[1..] == s.body + ([EndBlock] + later);
    var shown := Pushed(found, ProsePart(ask, run));
    match WidgetNamed(s.info, ask.widgets)
    case Err(e) =>
    case Ok(widget) =>
      FeedBody(ask, s.body, later, shown, [], widget, "");
      assert "" + Said(s.body) == Said(s.body);
      FeedProse(ask, s.prose, rest, shown + [Part("", widget, Said(s.body))], []);
      assert [] + NeutraliseAll(ask, s.prose) == NeutraliseAll(ask, s.prose);
  }

  lemma PushedIsAppended(parts: seq<Part>, part: Option<Part>)
    ensures Pushed(parts, part) == parts + Pushed([], part)
  {
  }

  lemma Associates(a: seq<Part>, b: seq<Part>, c: seq<Part>, d: seq<Part>)
    ensures a + b + c + d == a + (b + c + d)
  {
  }

  lemma {:induction false} FeedSections(ask: Ask, sections: seq<Section>, found: seq<Part>, run: seq<Event>)
    requires forall i :: 0 <= i < |sections| ==> IsSection(sections[i])
    ensures Feed(ask, SectionsEvents(sections), found, run, None) ==
            match SectionsParts(ask, sections)
            case Err(e) => Err(e)
            case Ok(rest) => Ok(Pushed(found, ProsePart(ask, run)) + rest)
    decreases |sections|
  {
    if sections == [] {
      assert Pushed(found, ProsePart(ask, run)) + [] == Pushed(found, ProsePart(ask, run));
    } else {
      var s := sections[0];
      FeedSection(ask, s, SectionsEvents(sections[1..]), found, run);
      match WidgetNamed(s.info, ask.widgets)
      case Err(e) =>
      case Ok(widget) =>
        var shown, w := Pushed(found, ProsePart(ask, run)), [Part("", widget, Said(s.body))];
        FeedSections(ask, sections[1..], shown + w, NeutraliseAll(ask, s.prose));
        PushedIsAppended(shown + w, ProsePart(ask, NeutraliseAll(ask, s.prose)));
        match SectionsParts(ask, sections[1..])
        case Err(e) =>
        case Ok(rest) => Associates(shown, w, Prose(ask, s.prose), rest);
    }
  }

  /** On the events of a document the scan gives the document's parts. */
  lemma ScanIsDocumentParts(ask: Ask, d: Document)
    requires IsDocument(d)
    ensures Feed(ask, Events(d), [], [], None) == DocumentParts(ask, d)
  {
    FeedProse(ask, d.opening, SectionsEvents(d.sections), [], []);
    assert [] + NeutraliseAll(ask, d.opening) == NeutraliseAll(ask, d.opening);
    FeedSections(ask, d.sections, [], NeutraliseAll(ask, d.opening));
  }

  /** Every widget fence is closed before the next opens and before the end. */
  predicate Closes(events: seq<Event>, inside: bool) {
    if events == [] then !inside
    else if OpensWidget(events[0]) then !inside && Closes(events[1..], true)
    else Closes(events[1..], inside && !events[0].EndBlock?)
  }

  lemma {:induction false} BodyCloses(events: seq<Event>) returns (k: nat)
    requires Closes(events, true)
    ensures k < |events| && events[k].EndBlock? && IsBody(events[..k]) && Closes(events[k + 1..], false)
  {
    if events[0].EndBlock? {
      k := 0;
    } else {
      var later := BodyCloses(events[1..]);
      k := later + 1;
      assert events[..k] == [events[0]] + events[1..][..later];
      assert events[k + 1..] == events[1..][later + 1..];
    }
  }

  lemma SectionFirst(info: string, rest: seq<Event>, k: nat, later: Document, s: Section, d: Document)
    requires k < |rest| && rest[k].EndBlock? && rest[k + 1..] == Events(later)
    requires s == Section(info, rest[..k], later.opening) && d == Document([], [s] + later.sections)
    ensures Events(d) == [Fenced(info)] + rest
  {
    var more := SectionsEvents(later.sections);
    assert d.sections[0] == s && d.sections[1..] == later.sections;
    assert [] + SectionsEvents(d.sections) == SectionsEvents(d.sections);
    AroundTheEnd(rest, k);
    FiveTogether([Fenced(info)], rest[..k], [EndBlock], later.opening, more);
  }

  lemma AroundTheEnd(rest: seq<Event>, k: nat)
    requires k < |rest| && rest[k].EndBlock?
    ensures rest == rest[..k] + [EndBlock] + rest[k + 1..]
  {
  }

  lemma FiveTogether(a: seq<Event>, b: seq<Event>, c: seq<Event>, d: seq<Event>, e: seq<Event>)
    ensures a + b + c + d + e == a + (b + c + (d + e))
  {
  }

  /** Such a stream is the events of a document. */
  lemma {:induction false} IsSomeDocument(events: seq<Event>) returns (d: Document)
    requires Closes(events, false)
    ensures IsDocument(d) && Events(d) == events
    decreases |events|
  {
    if events == [] {
      d := Document([], []);
    } else if OpensWidget(events[0]) {
      var rest := events[1..];
      var k := BodyCloses(rest);
      var later := IsSomeDocument(rest[k + 1..]);
      var s := Section(events[0].info, rest[..k], later.opening);
      d := Document([], [s] + later.sections);
      SectionFirst(events[0].info, rest, k, later, s, d);
      assert events == [events[0]] + rest;
    } else {
      var later := IsSomeDocument(events[1..]);
      d := Document([events[0]] + later.opening, later.sections);
      assert events == [events[0]] + events[1..];
    }
  }

  // ---- what the parts are ----

  predicate IsProsePart(p: Part) {
    p.widget == ""
  }

  ghost predicate Alternates(parts: seq<Part>) {
    forall i :: 0 <= i < |parts| - 1 ==> !IsProsePart(parts[i]) || !IsProsePart(parts[i + 1])
  }

  ghost predicate AllOffered(ask: Ask, parts: seq<Part>) {
    forall i :: 0 <= i < |parts| && !IsProsePart(parts[i]) ==> parts[i].widget in ask.widgets
  }

  lemma {:induction false} SectionsAlternate(ask: Ask, sections: seq<Section>)
    ensures
      var r := SectionsParts(ask, sections);
      r.Ok? ==>
        && Alternates(r.value) && AllOffered(ask, r.value)
        && (r.value != [] ==> !IsProsePart(r.value[0]))
    ensures SectionsParts(ask, sections).Err?
            <==> exists i :: 0 <= i < |sections| && WidgetNamed(sections[i].info, ask.widgets).Err?
  {
    if sections != [] {
      SectionsAlternate(ask, sections[1..]);
      assert forall i :: 1 <= i < |sections| ==> sections[i] == sections[1..][i - 1];
    }
  }

  /** Prose never stands next to prose, every widget is one the program offers, and a
      document is refused exactly when one of its fences is. */
  lemma PartsAlternate(ask: Ask, d: Document)
    ensures
      var r := DocumentParts(ask, d);
      && (r.Ok? ==> Alternates(r.value) && AllOffered(ask, r.value))
      && (r.Err? <==> exists i :: 0 <= i < |d.sections| && WidgetNamed(d.sections[i].info, ask.widgets).Err?)
  {
    SectionsAlternate(ask, d.sections);
  }

  /** Without a widget fence there is the whole document as `markdown` renders it, or
      nothing. */
  lemma WithoutWidgetsIsMarkdown(ask: Ask, events: seq<Event>)
    requires IsProse(events)
    ensures Feed(ask, events, [], [], None) ==
            Ok(if AllSpace(Markdown(ask, events)) then [] else [Part(Markdown(ask, events), "", "")])
  {
    var d := Document(events, []);
    assert Events(d) == events;
    ScanIsDocumentParts(ask, d);
    var part := Part(Markdown(ask, events), "", "");
    assert Prose(ask, events) + [] == Prose(ask, events) && [] + [part] == [part];
  }
}
