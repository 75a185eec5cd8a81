/** Replaying a cardholder's form as a browser would submit it. */
module HtmlForm {
  import opened Base

  datatype Choice = Choice(value: string, selected: bool)

  datatype Control = Control(name: string, kind: string, value: string, checked: bool, options: seq<Choice>) {
    predicate Submits() {
      if kind in {"submit", "button", "reset", "image"} then false
      else if kind in {"checkbox", "radio"} then checked
      else true
    }

    function SubmittedValue(): string {
      if kind != "select" then value
      else if FirstSelected(options).Some? then FirstSelected(options).value
      else if options != [] then options[0].value
      else ""
    }
  }

  function FirstSelected(options: seq<Choice>): Option<string> {
    if options == [] then None
    else if options[0].selected then Some(options[0].value)
    else FirstSelected(options[1..])
  }

  /** One part of a submission; a file input is sent empty. */
  datatype Part = Field(name: string, value: string) | FilePart(name: string)

  function PartOf(c: Control): Part {
    if c.kind == "file" then FilePart(c.name) else Field(c.name, c.SubmittedValue())
  }

  /** `submitted_pairs`, in document order; a FilePart's value prints as "<file>". */
  function SubmittedPairs(controls: seq<Control>): seq<Part> {
    if controls == [] then []
    else (if controls[0].Submits() then [PartOf(controls[0])] else []) + SubmittedPairs(controls[1..])
  }

  /** What is submitted, said of the controls: a button never, a box or a choice only while it is ticked; a
      file empty; a list by its first selected option, or else its first; anything else by its value. */
  lemma {:induction false} SubmittedAre(controls: seq<Control>, p: Part)
    ensures p in SubmittedPairs(controls) <==>
              exists c <- controls ::
                && c.kind != "submit" && c.kind != "button" && c.kind != "reset" && c.kind != "image"
                && (c.kind == "checkbox" || c.kind == "radio" ==> c.checked)
                && p == if c.kind == "file" then FilePart(c.name) else Field(c.name, c.SubmittedValue())
  {
    if controls != [] {
      assert controls == [controls[0]] + controls[1..];
      SubmittedAre(controls[1..], p);
      hide Control.SubmittedValue;
    }
  }

  lemma ValueIs(c: Control)
    ensures c.kind != "select" ==> c.SubmittedValue() == c.value
    ensures c.kind == "select" ==>
              && (c.options == [] ==> c.SubmittedValue() == "")
              && (c.options != [] && (forall o <- c.options :: !o.selected) ==> c.SubmittedValue() == c.options[0].value)
              && forall k | 0 <= k < |c.options| && c.options[k].selected && (forall j | 0 <= j < k :: !c.options[j].selected) ::
                   c.SubmittedValue() == c.options[k].value
  {
    FirstIsFirst(c.options);
  }

  lemma {:induction false} FirstIsFirst(options: seq<Choice>)
    ensures FirstSelected(options).None? <==> forall o <- options :: !o.selected
    ensures forall k | 0 <= k < |options| && options[k].selected && (forall j | 0 <= j < k :: !options[j].selected) ::
              FirstSelected(options) == Some(options[k].value)
  {
    if options != [] {
      var rest := options[1..];
      assert options == [options[0]] + rest;
      FirstIsFirst(rest);
      forall k | 1 <= k < |options| && options[k].selected && (forall j | 0 <= j < k :: !options[j].selected)
        ensures FirstSelected(options) == Some(options[k].value)
      {
        assert rest[k - 1] == options[k];
        assert forall j | 0 <= j < k - 1 :: rest[j] == options[j + 1];
      }
    }
  }

  // ---- on the wire ----

  const CRLF := "\r\n"
  const NAMED := "Content-Disposition: form-data; name=\""
  const FILENAME := "; filename=\"\""
  const OCTET_STREAM := "Content-Type: application/octet-stream"

  /** A header after its name's closing quote. */
  function Tail(p: Part): string {
    if p.Field? then "" else FILENAME + (CRLF + OCTET_STREAM)
  }

  function Header(p: Part): string {
    NAMED + (p.name + ("\"" + Tail(p)))
  }

  function Content(p: Part): string {
    if p.Field? then p.value else ""
  }

  function Marker(boundary: string): string {
    "--" + boundary
  }

  /** What follows a marker: a part and the next marker, or the closing dashes. */
  function AfterMarker(parts: seq<Part>, marker: string): string {
    if parts == [] then "--" + CRLF
    else CRLF + (Header(parts[0]) + (CRLF + CRLF + (Content(parts[0]) + (CRLF + marker + AfterMarker(parts[1..], marker)))))
  }

  function Multipart(parts: seq<Part>, boundary: string): string {
    Marker(boundary) + AfterMarker(parts, Marker(boundary))
  }

  function Chunk(p: Part, marker: string): string {
    marker + CRLF + Header(p) + CRLF + CRLF + Content(p) + CRLF
  }

  function Chunks(parts: seq<Part>, marker: string): string {
    if parts == [] then "" else Chunks(parts[..|parts| - 1], marker) + Chunk(parts[|parts| - 1], marker)
  }

  /** A part on the wire: its marker, its header, a blank line, its value. */
  lemma ChunkIs(p: Part, marker: string)
    ensures p.Field? ==>
              Chunk(p, marker) == marker + "\r\n" + ("Content-Disposition: form-data; name=\"" + (p.name + "\"")) + "\r\n" + "\r\n" + p.value + "\r\n"
    ensures p.FilePart? ==>
              Chunk(p, marker) == marker + "\r\n" + ("Content-Disposition: form-data; name=\"" + (p.name + ("\"" + ("; filename=\"\"" + ("\r\n" + "Content-Type: application/octet-stream")))))
                                  + "\r\n" + "\r\n" + "" + "\r\n"
  {
    assert "\"" + "" == "\"";
  }

  lemma {:induction false} ChunksAre(parts: seq<Part>, rest: seq<Part>, marker: string)
    ensures Chunks(parts, marker) + (marker + AfterMarker(rest, marker)) == marker + AfterMarker(parts + rest, marker)
  {
    hide AfterMarker, Chunk;
    if parts == [] {
      assert parts + rest == rest;
      var tail := marker + AfterMarker(rest, marker);
      assert "" + tail == tail;
    } else {
      var front, last := parts[..|parts| - 1], parts[|parts| - 1];
      ChunksAre(front, [last] + rest, marker);
      assert front + ([last] + rest) == parts + rest;
      OneChunk(last, rest, marker);
      Associates(Chunks(front, marker), Chunk(last, marker), marker + AfterMarker(rest, marker));
    }
  }

  lemma ChunksStep(parts: seq<Part>, p: Part, marker: string)
    ensures Chunks(parts + [p], marker) == Chunks(parts, marker) + Chunk(p, marker)
  {
    assert (parts + [p])[..|parts|] == parts;
  }

  lemma Associates(a: string, b: string, c: string)
    ensures (a + b) + c == a + (b + c)
  {
  }

  lemma OneChunk(p: Part, rest: seq<Part>, marker: string)
    ensures Chunk(p, marker) + (marker + AfterMarker(rest, marker)) == marker + AfterMarker([p] + rest, marker)
  {
    hide Header, Content;
    assert ([p] + rest)[1..] == rest;
  }

  // ---- reading it back by the delimiter rules of RFC 2046, section 5.1.1 ----

  /** The text up to the first occurrence of a pattern, and what follows it. */
  function CutAt(s: string, pattern: string): (r: Option<(string, string)>)
    ensures r.Some? ==> |r.value.1| + |pattern| <= |s|
  {
    match Find(s, pattern, 0)
    case None => None
    case Some(i) => Some((s[..i], s[i + |pattern|..]))
  }

  predicate StartsWith(s: string, prefix: string) {
    |prefix| <= |s| && s[..|prefix|] == prefix
  }

  /** A part from its header and its body; the name runs to the closing quote. */
  function ReadPart(header: string, body: string): Option<Part> {
    if !StartsWith(header, NAMED) then None
    else
      match CutAt(header[|NAMED|..], "\"")
      case None => None
      case Some((name, rest)) => Some(if StartsWith(rest, "; filename=") then FilePart(name) else Field(name, body))
  }

  /** The parts that follow a marker; a part's body ends at the next delimiter line. */
  function ReadParts(s: string, marker: string): Option<seq<Part>>
    decreases |s|
  {
    if StartsWith(s, "--") then Some([])
    else if !StartsWith(s, CRLF) then None
    else
      match CutAt(s[2..], CRLF + CRLF)
      case None => None
      case Some((header, rest)) =>
        match CutAt(rest, CRLF + marker)
        case None => None
        case Some((body, next)) =>
          var part, more := ReadPart(header, body), ReadParts(next, marker);
          if part.Some? && more.Some? then Some([part.value] + more.value) else None
  }

  function ReadMultipart(body: string, boundary: string): Option<seq<Part>> {
    if StartsWith(body, Marker(boundary)) then ReadParts(body[|Marker(boundary)|..], Marker(boundary)) else None
  }

  // ---- the round trip ----

  /** Names hold no quote and no line break. */
  predicate PlainName(name: string) {
    '\r' !in name && '\n' !in name && '\"' !in name
  }

  /** No value holds a delimiter line, and no boundary a line break. */
  predicate Sendable(parts: seq<Part>, boundary: string) {
    && '\r' !in boundary
    && forall p <- parts :: PlainName(p.name) && !Contains(Content(p), CRLF + Marker(boundary))
  }

  lemma CutHere(before: string, pattern: string, rest: string)
    requires forall i | 0 <= i < |before| :: !OccursAt(before + (pattern + rest), pattern, i)
    ensures CutAt(before + (pattern + rest), pattern) == Some((before, rest))
  {
    var s := before + (pattern + rest);
    assert s[|before|..|before| + |pattern|] == pattern;
    assert OccursAt(s, pattern, |before|);
    assert s[..|before|] == before && s[|before| + |pattern|..] == rest;
  }

  lemma NoMatch(s: string, pattern: string, i: nat, k: nat)
    requires k < |pattern| && (i + k >= |s| || s[i + k] != pattern[k])
    ensures !OccursAt(s, pattern, i)
  {
    if i + |pattern| <= |s| {
      assert s[i..i + |pattern|][k] == s[i + k];
    }
  }

  lemma CutAtQuote(name: string, rest: string)
    requires '\"' !in name
    ensures CutAt(name + ("\"" + rest), "\"") == Some((name, rest))
  {
    forall i | 0 <= i < |name| ensures !OccursAt(name + ("\"" + rest), "\"", i) {
      assert name[i] in name;
      NoMatch(name + ("\"" + rest), "\"", i, 0);
    }
    CutHere(name, "\"", rest);
  }

  lemma PartReadsBack(p: Part)
    requires PlainName(p.name)
    ensures ReadPart(Header(p), Content(p)) == Some(p)
  {
    assert Header(p)[|NAMED|..] == p.name + ("\"" + Tail(p));
    CutAtQuote(p.name, Tail(p));
    TailTells(p);
    hide Tail;
  }

  lemma TailTells(p: Part)
    ensures StartsWith(Tail(p), "; filename=") == p.FilePart?
  {
    if p.FilePart? {
      assert FILENAME[..11] == "; filename=";
      assert Tail(p)[..11] == FILENAME[..11];
    }
  }

  /** A header's lines end where the blank line is. */
  lemma HeaderEnds(p: Part, rest: string)
    requires PlainName(p.name)
    ensures CutAt(Header(p) + (CRLF + CRLF + rest), CRLF + CRLF) == Some((Header(p), rest))
  {
    var h, blank := Header(p), CRLF + CRLF;
    assert h + (CRLF + CRLF + rest) == h + (blank + rest);
    forall i | 0 <= i < |h| ensures !OccursAt(h + (blank + rest), blank, i) {
      LinesOfHeader(p, i);
      NoBlankLineAt(h, rest, i);
    }
    hide Header;
    CutHere(h, blank, rest);
  }

  lemma NoBlankLineAt(h: string, rest: string, i: nat)
    requires GoesOn(h, i)
    ensures !OccursAt(h + ((CRLF + CRLF) + rest), CRLF + CRLF, i)
  {
    var blank := CRLF + CRLF;
    assert blank[0] == '\r' && blank[2] == '\r';
    var s := h + (blank + rest);
    assert s[i] == h[i];
    if h[i] == '\r' {
      assert s[i + 2] == h[i + 2];
      NoMatch(s, blank, i, 2);
    } else {
      NoMatch(s, blank, i, 0);
    }
  }

  /** A line break in a header is followed by another line. */
  predicate GoesOn(s: string, i: nat) {
    i < |s| && (s[i] == '\r' ==> i + 2 < |s| && s[i + 2] == 'C')
  }

  lemma GoesOnAfter(front: string, s: string, i: nat)
    requires '\r' !in front && i < |front| + |s| && (i >= |front| ==> GoesOn(s, i - |front|))
    ensures GoesOn(front + s, i)
  {
    if i < |front| {
      assert (front + s)[i] == front[i] && front[i] in front;
    }
  }

  lemma LinesOfHeader(p: Part, i: nat)
    requires PlainName(p.name) && i < |Header(p)|
    ensures GoesOn(Header(p), i)
  {
    hide Tail;
    var quoted := "\"" + Tail(p);
    if i >= |NAMED| + |p.name| + 1 {
      LinesOfTail(p, i - |NAMED| - |p.name| - 1);
    }
    if i >= |NAMED| + |p.name| {
      GoesOnAfter("\"", Tail(p), i - |NAMED| - |p.name|);
    }
    if i >= |NAMED| {
      GoesOnAfter(p.name, quoted, i - |NAMED|);
    }
    assert '\r' !in NAMED;
    GoesOnAfter(NAMED, p.name + quoted, i);
  }

  lemma LinesOfTail(p: Part, i: nat)
    requires i < |Tail(p)|
    ensures GoesOn(Tail(p), i)
  {
    var line := CRLF + OCTET_STREAM;
    assert '\r' !in FILENAME && '\r' !in OCTET_STREAM;
    assert line[0] == '\r' && line[1] == '\n' && line[2] == OCTET_STREAM[0] == 'C';
    forall k | 0 <= k < |line| ensures GoesOn(line, k) {
      if k >= 2 {
        assert line[k] == OCTET_STREAM[k - 2] && OCTET_STREAM[k - 2] in OCTET_STREAM;
      }
    }
    GoesOnAfter(FILENAME, line, i);
  }

  /** A value ends at its own delimiter exactly when it holds none: nothing before that is one,
      not even in part. */
  lemma ValueEnds(value: string, boundary: string, rest: string)
    requires '\r' !in boundary
    ensures CutAt(value + (CRLF + Marker(boundary) + rest), CRLF + Marker(boundary)) == Some((value, rest))
            <==> !Contains(value, CRLF + Marker(boundary))
  {
    var line := CRLF + Marker(boundary);
    var s := value + (line + rest);
    assert s == value + (CRLF + Marker(boundary) + rest);
    if Contains(value, line) {
      var i :| 0 <= i <= |value| && OccursAt(value, line, i);
      InsideValue(value, line, i, s);
      assert !(Find(s, line, 0) == Some(|value|));
    } else {
      forall i | 0 <= i < |value| ensures !OccursAt(s, line, i) {
        if i + |line| <= |value| {
          InsideValue(value, line, i, s);
        } else {
          AcrossTheEnd(value, boundary, i, s);
        }
      }
      CutHere(value, line, rest);
    }
  }

  lemma AcrossTheEnd(value: string, boundary: string, i: nat, s: string)
    requires '\r' !in boundary && i < |value| < i + 4 + |boundary| && |value| < |s| && s[|value|] == '\r'
    ensures !OccursAt(s, CRLF + Marker(boundary), i)
  {
    var line, k := CRLF + Marker(boundary), |value| - i;
    assert k >= 4 ==> line[k] == boundary[k - 4] && boundary[k - 4] in boundary;
    NoMatch(s, line, i, k);
  }

  lemma InsideValue(value: string, pattern: string, i: nat, s: string)
    requires i + |pattern| <= |value| <= |s| && s[..|value|] == value
    ensures OccursAt(s, pattern, i) <==> OccursAt(value, pattern, i)
  {
    var n := i + |pattern|;
    assert s[..|value|][i..n] == s[i..n] by {
      forall j | 0 <= j < |pattern| ensures s[..|value|][i..n][j] == s[i..n][j] { assert s[..|value|][i + j] == s[i + j]; }
    }
  }

  lemma {:induction false} PartsReadBack(parts: seq<Part>, boundary: string)
    requires Sendable(parts, boundary)
    ensures ReadParts(AfterMarker(parts, Marker(boundary)), Marker(boundary)) == Some(parts)
  {
    hide Header, Content, ReadPart, CutAt, PlainName;
    var marker := Marker(boundary);
    var s := AfterMarker(parts, marker);
    if parts == [] {
      assert s[..2] == "--";
    } else {
      var p, more := parts[0], parts[1..];
      var next := AfterMarker(more, marker);
      assert p in parts && parts == [p] + more;
      PartsReadBack(more, boundary);
      ValueEnds(Content(p), boundary, next);
      HeaderEnds(p, Content(p) + (CRLF + marker + next));
      PartReadsBack(p);
      assert s[..2] == CRLF && s[2..] == Header(p) + (CRLF + CRLF + (Content(p) + (CRLF + marker + next)));
      assert s[0] == '\r';
    }
  }

  /** Splitting the body by its delimiter gives back exactly the submitted parts, in order. */
  lemma MultipartReadsBack(controls: seq<Control>, boundary: string)
    requires Sendable(SubmittedPairs(controls), boundary)
    ensures ReadMultipart(Multipart(SubmittedPairs(controls), boundary), boundary) == Some(SubmittedPairs(controls))
  {
    var parts := SubmittedPairs(controls);
    PartsReadBack(parts, boundary);
    var body := Multipart(parts, boundary);
    assert body[..|Marker(boundary)|] == Marker(boundary) && body[|Marker(boundary)|..] == AfterMarker(parts, Marker(boundary));
  }

  // ---- the form ----

  /** The index of the first element meeting a condition; the length when none does. */
  function FirstWhere<T>(meets: T -> bool, s: seq<T>): (i: nat)
    ensures i <= |s|
    ensures i < |s| ==> meets(s[i])
    ensures forall j | 0 <= j < i :: !meets(s[j])
  {
    if s == [] || meets(s[0]) then 0 else 1 + FirstWhere(meets, s[1..])
  }

  function FirstNamed(controls: seq<Control>, name: string): nat {
    FirstWhere((c: Control) => c.name == name, controls)
  }

  function FirstValued(options: seq<Choice>, value: string): nat {
    FirstWhere((o: Choice) => o.value == value, options)
  }

  /** Only the control at `at` differs. */
  predicate OnlyAt(before: seq<Control>, after: seq<Control>, at: nat) {
    |before| == |after| && forall i | 0 <= i < |before| && i != at :: after[i] == before[i]
  }

  class CardholderForm {
    var controls: seq<Control>

    constructor (controls: seq<Control>)
      ensures this.controls == controls
    {
      this.controls := controls;
    }

    /** False where the source raises KeyError: an unknown field, or an option a select lacks. */
    method SetValue(name: string, value: string) returns (ok: bool)
      modifies this
      ensures var at := FirstNamed(old(controls), name);
              && ok == (at < |old(controls)| && (old(controls)[at].kind != "select" || FirstValued(old(controls)[at].options, value) < |old(controls)[at].options|))
              && (!ok ==> controls == old(controls))
              && (ok ==> && OnlyAt(old(controls), controls, at)
                         && controls[at].SubmittedValue() == value
                         && controls[at].Submits() == old(controls)[at].Submits() && PartOf(controls[at]).name == name
                         && (controls[at].kind == "select" ==>
                               ExactlyOneSelected(controls[at].options, FirstValued(old(controls)[at].options, value))
                               && SameValues(old(controls)[at].options, controls[at].options)))
    {
      var at := FirstNamed(controls, name);
      if at == |controls| {
        return false;
      }
      var control := controls[at];
      if control.kind == "select" {
        var match_ := FirstValued(control.options, value);
        if match_ == |control.options| {
          return false;
        }
        var options: seq<Choice> := [];
        for i := 0 to |control.options|
          invariant |options| == i
          invariant forall j | 0 <= j < i :: options[j] == control.options[j].(selected := j == match_)
        {
          options := options + [control.options[i].(selected := i == match_)];
        }
        SelectedIs(options, match_);
        control := control.(options := options);
      } else {
        control := control.(value := value);
      }
      controls := controls[at := control];
      ok := true;
    }

    method SetChecked(name: string, checked: bool) returns (ok: bool)
      modifies this
      ensures var at := FirstNamed(old(controls), name);
              && ok == (at < |old(controls)|)
              && controls == if ok then old(controls)[at := old(controls)[at].(checked := checked)] else old(controls)
    {
      var at := FirstNamed(controls, name);
      ok := at < |controls|;
      if ok {
        controls := controls[at := controls[at].(checked := checked)];
      }
    }

    /** One control's part, up to the next marker. */
    static method Render(c: Control, marker: string) returns (chunk: string)
      ensures chunk == Chunk(PartOf(c), marker)
    {
      chunk := marker + CRLF;
      if c.kind == "file" {
        chunk := chunk + (NAMED + (c.name + ("\"" + (FILENAME + (CRLF + OCTET_STREAM))))) + CRLF + CRLF;
        chunk := chunk + "" + CRLF;
      } else {
        chunk := chunk + (NAMED + (c.name + ("\"" + ""))) + CRLF + CRLF;
        chunk := chunk + c.SubmittedValue() + CRLF;
      }
    }

    method ToMultipart(boundary: string) returns (body: string)
      ensures body == Multipart(SubmittedPairs(controls), boundary)
    {
      hide Chunk, AfterMarker;
      var marker := Marker(boundary);
      body := "";
      for i := 0 to |controls|
        invariant body == Chunks(SubmittedPairs(controls[..i]), marker)
      {
        var c := controls[i];
        PairsStep(controls, i);
        assert SubmittedPairs(controls[..i]) + [] == SubmittedPairs(controls[..i]);
        if c.Submits() {
          ChunksStep(SubmittedPairs(controls[..i]), PartOf(c), marker);
          var chunk := Render(c, marker);
          body := body + chunk;
        }
      }
      assert controls[..|controls|] == controls;
      ChunksAre(SubmittedPairs(controls), [], marker);
      assert SubmittedPairs(controls) + [] == SubmittedPairs(controls);
      body := body + (marker + ("--" + CRLF));
      assert AfterMarker([], marker) == "--" + CRLF by { Closing(marker); }
    }
  }

  lemma Closing(marker: string)
    ensures AfterMarker([], marker) == "--" + CRLF
  {
  }

  lemma {:induction false} PairsAppend(a: seq<Control>, b: seq<Control>)
    ensures SubmittedPairs(a + b) == SubmittedPairs(a) + SubmittedPairs(b)
  {
    if a == [] {
      assert a + b == b;
    } else {
      PairsAppend(a[1..], b);
      assert (a + b)[1..] == a[1..] + b;
    }
  }

  lemma PairsStep(controls: seq<Control>, i: nat)
    requires i < |controls|
    ensures SubmittedPairs(controls[..i + 1]) ==
            SubmittedPairs(controls[..i]) + if controls[i].Submits() then [PartOf(controls[i])] else []
  {
    assert controls[..i + 1] == controls[..i] + [controls[i]];
    PairsAppend(controls[..i], [controls[i]]);
    assert SubmittedPairs([controls[i]]) == (if controls[i].Submits() then [PartOf(controls[i])] else []) + SubmittedPairs([]);
  }

  /** Setting one control changes its own submitted pair and no other. */
  lemma OtherPairsUnchanged(before: seq<Control>, after: seq<Control>, at: nat)
    requires OnlyAt(before, after, at) && at < |before|
    ensures SubmittedPairs(before) == SubmittedPairs(before[..at]) + (if before[at].Submits() then [PartOf(before[at])] else []) + SubmittedPairs(before[at + 1..])
    ensures SubmittedPairs(after) == SubmittedPairs(before[..at]) + (if after[at].Submits() then [PartOf(after[at])] else []) + SubmittedPairs(before[at + 1..])
  {
    PairsAround(before, at);
    PairsAround(after, at);
    assert after[..at] == before[..at] && after[at + 1..] == before[at + 1..];
  }

  lemma PairsAround(controls: seq<Control>, at: nat)
    requires at < |controls|
    ensures SubmittedPairs(controls) ==
            SubmittedPairs(controls[..at]) + (if controls[at].Submits() then [PartOf(controls[at])] else []) + SubmittedPairs(controls[at + 1..])
  {
    assert controls == controls[..at + 1] + controls[at + 1..];
    PairsAppend(controls[..at + 1], controls[at + 1..]);
    PairsStep(controls, at);
  }

  predicate ExactlyOneSelected(options: seq<Choice>, at: nat) {
    at < |options| && forall i | 0 <= i < |options| :: options[i].selected <==> i == at
  }

  predicate SameValues(a: seq<Choice>, b: seq<Choice>) {
    |a| == |b| && forall i | 0 <= i < |a| :: a[i].value == b[i].value
  }

  lemma {:induction false} SelectedIs(options: seq<Choice>, at: nat)
    requires ExactlyOneSelected(options, at)
    ensures FirstSelected(options) == Some(options[at].value)
  {
    if at > 0 {
      SelectedIs(options[1..], at - 1);
    }
  }
}
