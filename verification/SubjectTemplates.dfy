/** One subject template read three ways: the wildcard pattern the server subscribes to, the segment
    indexes its handlers read, and the string the client builds
    (nats-micro-macros/src/service/parse.rs and client.rs). */
module SubjectTemplates {
  import opened Text
  import opened Subjects

  datatype OperationKind = Request | Publish | Subscribe | Consumer

  datatype SubjectModel = SubjectModel(template: Str, pattern: Str, placeholders: seq<(Str, nat)>)

  datatype TemplateError =
    | EmptySegment
    | InvalidSegment(segment: Str)
    | InvalidPlaceholder(name: Str)
    | RawWildcard(segment: Str)

  /** What one template segment stands for. */
  datatype Piece = Hole(name: Str) | Literal(text: Str)

  function Inner(segment: Str): Str
    requires |segment| >= 2
  {
    segment[1..|segment| - 1]
  }

  /** The reading of one segment; `isIdent` says which names the Rust parser takes as identifiers. */
  function ReadSegment(segment: Str, kind: OperationKind, isIdent: Str -> bool): Result<Piece, TemplateError> {
    if segment == [] then Err(EmptySegment)
    else if segment[0] == OPEN_BRACE || segment[|segment| - 1] == CLOSE_BRACE then
      if segment[0] != OPEN_BRACE || segment[|segment| - 1] != CLOSE_BRACE then Err(InvalidSegment(segment))
      else if !isIdent(Inner(segment)) then Err(InvalidPlaceholder(Inner(segment)))
      else Ok(Hole(Inner(segment)))
    else if OPEN_BRACE in segment || CLOSE_BRACE in segment then Err(InvalidSegment(segment))
    else if kind in {Request, Publish} && segment in {STAR, GT} then Err(RawWildcard(segment))
    else Ok(Literal(segment))
  }

  /** The segment is a placeholder with this text between its braces. */
  ghost predicate Encloses(segment: Str, name: Str) {
    segment == [OPEN_BRACE] + name + [CLOSE_BRACE]
  }

  /** What every segment is read as: a placeholder if it is an identifier between braces; itself if it is not
      empty, has no brace and is not a wildcard in a subject to send to; and in every other case the error that
      says what is wrong with it. */
  lemma SegmentsAreReadExactly(segment: Str, kind: OperationKind, isIdent: Str -> bool, name: Str)
    ensures
      var read := ReadSegment(segment, kind, isIdent);
      var sends := kind == Request || kind == Publish;
      var braces := OPEN_BRACE in segment || CLOSE_BRACE in segment;
      && (read == Ok(Hole(name)) <==> Encloses(segment, name) && isIdent(name))
      && (read == Err(InvalidPlaceholder(name)) <==> Encloses(segment, name) && !isIdent(name))
      && (read == Ok(Literal(name)) <==>
          segment == name && name != [] && !braces && !(sends && (name == STAR || name == GT)))
      && (read == Err(RawWildcard(name)) <==> segment == name && sends && (name == STAR || name == GT))
      && (read == Err(InvalidSegment(name)) <==> segment == name && braces && forall inner :: !Encloses(segment, inner))
      && (read == Err(EmptySegment) <==> segment == [])
  {
    if |segment| >= 2 && segment[0] == OPEN_BRACE && segment[|segment| - 1] == CLOSE_BRACE {
      assert Encloses(segment, Inner(segment));
    }
    if Encloses(segment, name) {
      assert Inner(segment) == name;
    }
    assert segment != [] ==> segment[0] in segment && segment[|segment| - 1] in segment;
    forall inner | Encloses(segment, inner)
      ensures segment[0] == OPEN_BRACE && segment[|segment| - 1] == CLOSE_BRACE && |segment| >= 2
    {}
  }

  /** Every segment of the template has a reading; an empty template has no segments to read. */
  ghost predicate Accepted(template: Str, kind: OperationKind, isIdent: Str -> bool) {
    template == [] || forall segment | segment in Split(template) :: ReadSegment(segment, kind, isIdent).Ok?
  }

  function PatternToken(piece: Piece): Str {
    match piece
    case Hole(_) => STAR
    case Literal(text) => text
  }

  ghost function Pieces(template: Str, kind: OperationKind, isIdent: Str -> bool): (pieces: seq<Piece>)
    requires Accepted(template, kind, isIdent) && template != []
    ensures |pieces| == |Split(template)|
  {
    seq(|Split(template)|, i requires 0 <= i < |Split(template)| =>
      assert Split(template)[i] in Split(template);
      ReadSegment(Split(template)[i], kind, isIdent).value)
  }

  ghost function PatternTokens(pieces: seq<Piece>): (tokens: seq<Str>)
    ensures |tokens| == |pieces|
    ensures forall i | 0 <= i < |pieces| :: tokens[i] == PatternToken(pieces[i])
  {
    seq(|pieces|, i requires 0 <= i < |pieces| => PatternToken(pieces[i]))
  }

  /** `placeholders` lists the holes among the first `n` pieces, in order, each with its index. */
  ghost predicate ListsHoles(placeholders: seq<(Str, nat)>, pieces: seq<Piece>) {
    && (forall k | 0 <= k < |placeholders| ::
          placeholders[k].1 < |pieces| && pieces[placeholders[k].1] == Hole(placeholders[k].0))
    && (forall j, k | 0 <= j < k < |placeholders| :: placeholders[j].1 < placeholders[k].1)
    && (forall i | 0 <= i < |pieces| && pieces[i].Hole? :: (pieces[i].name, i) in placeholders)
  }

  /** How far a scan of the segments has come: the pieces read so far and what was collected from them. */
  ghost predicate Reading(segments: seq<Str>, kind: OperationKind, isIdent: Str -> bool, pieces: seq<Piece>,
                          pattern: seq<Str>, placeholders: seq<(Str, nat)>)
  {
    && |pieces| <= |segments|
    && (forall j | 0 <= j < |pieces| :: ReadSegment(segments[j], kind, isIdent) == Ok(pieces[j]))
    && pattern == PatternTokens(pieces)
    && ListsHoles(placeholders, pieces)
  }

  lemma ReadNext(segments: seq<Str>, kind: OperationKind, isIdent: Str -> bool, pieces: seq<Piece>,
                 pattern: seq<Str>, placeholders: seq<(Str, nat)>)
    requires Reading(segments, kind, isIdent, pieces, pattern, placeholders) && |pieces| < |segments|
    requires ReadSegment(segments[|pieces|], kind, isIdent).Ok?
    ensures
      var piece := ReadSegment(segments[|pieces|], kind, isIdent).value;
      Reading(segments, kind, isIdent, pieces + [piece], pattern + [PatternToken(piece)],
              placeholders + if piece.Hole? then [(piece.name, |pieces|)] else [])
  {
    var piece := ReadSegment(segments[|pieces|], kind, isIdent).value;
    if piece.Hole? {
      var more := placeholders + [(piece.name, |pieces|)];
      assert more[|placeholders|] == (piece.name, |pieces|);
    } else {
      assert placeholders + [] == placeholders;
    }
  }

  /** What parsing a template must return: the wildcard pattern and the indexed holes of its pieces, or
      the error of its first unreadable segment. */
  ghost predicate ParsesTo(template: Str, kind: OperationKind, isIdent: Str -> bool,
                           r: Result<SubjectModel, TemplateError>)
  {
    match r
    case Ok(model) =>
      && Accepted(template, kind, isIdent)
      && model.template == template
      && if template == [] then model.pattern == [] && model.placeholders == []
         else
           && Split(model.pattern) == PatternTokens(Pieces(template, kind, isIdent))
           && ListsHoles(model.placeholders, Pieces(template, kind, isIdent))
    case Err(error) =>
      && template != []
      && exists k | 0 <= k < |Split(template)| ::
           && ReadSegment(Split(template)[k], kind, isIdent) == Err(error)
           && forall j | 0 <= j < k :: ReadSegment(Split(template)[j], kind, isIdent).Ok?
  }

  /** Parsing succeeds exactly on the accepted templates. */
  lemma ParsesExactlyAccepted(template: Str, kind: OperationKind, isIdent: Str -> bool,
                              r: Result<SubjectModel, TemplateError>)
    requires ParsesTo(template, kind, isIdent, r)
    ensures r.Ok? <==> Accepted(template, kind, isIdent)
  {
    if r.Err? {
      var k :| 0 <= k < |Split(template)| && ReadSegment(Split(template)[k], kind, isIdent) == Err(r.error);
      assert Split(template)[k] in Split(template);
    }
  }

  lemma NothingRead(segments: seq<Str>, kind: OperationKind, isIdent: Str -> bool)
    ensures Reading(segments, kind, isIdent, [], [], [])
  {}

  lemma RejectsAt(template: Str, kind: OperationKind, isIdent: Str -> bool, pieces: seq<Piece>,
                  pattern: seq<Str>, placeholders: seq<(Str, nat)>)
    requires template != [] && Reading(Split(template), kind, isIdent, pieces, pattern, placeholders)
    requires |pieces| < |Split(template)| && ReadSegment(Split(template)[|pieces|], kind, isIdent).Err?
    ensures ParsesTo(template, kind, isIdent, Err(ReadSegment(Split(template)[|pieces|], kind, isIdent).error))
  {}

  lemma ReadToEnd(template: Str, kind: OperationKind, isIdent: Str -> bool, pieces: seq<Piece>,
                  pattern: seq<Str>, placeholders: seq<(Str, nat)>)
    requires template != [] && Reading(Split(template), kind, isIdent, pieces, pattern, placeholders)
    requires |pieces| == |Split(template)|
    ensures pattern != []
    ensures ParsesTo(template, kind, isIdent, Ok(SubjectModel(template, Join(pattern), placeholders)))
  {
    hide ReadSegment, Split, Join, ListsHoles, DotFree;
    var segments := Split(template);
    SplitDotFree(template);
    TokensAreDotFree(segments, kind, isIdent, pieces);
    assert forall segment | segment in segments :: ReadSegment(segment, kind, isIdent).Ok?;
    assert pieces == Pieces(template, kind, isIdent);
    SplitJoin(pattern);
  }

  lemma TokensAreDotFree(segments: seq<Str>, kind: OperationKind, isIdent: Str -> bool, pieces: seq<Piece>)
    requires DotFree(segments) && |pieces| == |segments|
    requires forall j | 0 <= j < |pieces| :: ReadSegment(segments[j], kind, isIdent) == Ok(pieces[j])
    ensures DotFree(PatternTokens(pieces))
  {}

  /** `parse_subject_template`. */
  method ParseSubjectTemplate(template: Str, kind: OperationKind, isIdent: Str -> bool)
    returns (r: Result<SubjectModel, TemplateError>)
    ensures ParsesTo(template, kind, isIdent, r)
  {
    if template == [] {
      return Ok(SubjectModel([], [], []));
    }
    var segments := Split(template);
    var pattern: seq<Str> := [];
    var placeholders: seq<(Str, nat)> := [];
    ghost var pieces: seq<Piece> := [];
    hide ListsHoles, PatternTokens, Reading, ParsesTo;
    NothingRead(segments, kind, isIdent);
    for index := 0 to |segments|
      invariant |pieces| == index
      invariant Reading(segments, kind, isIdent, pieces, pattern, placeholders)
    {
      var segment := segments[index];
      if ReadSegment(segment, kind, isIdent).Err? {
        RejectsAt(template, kind, isIdent, pieces, pattern, placeholders);
      } else {
        ReadNext(segments, kind, isIdent, pieces, pattern, placeholders);
      }
      if segment == [] {
        return Err(EmptySegment);
      }
      if segment[0] == OPEN_BRACE || segment[|segment| - 1] == CLOSE_BRACE {
        if segment[0] != OPEN_BRACE || segment[|segment| - 1] != CLOSE_BRACE {
          return Err(InvalidSegment(segment));
        }
        var name := segment[1..|segment| - 1];
        if !isIdent(name) {
          return Err(InvalidPlaceholder(name));
        }
        placeholders := placeholders + [(name, index)];
        pattern := pattern + [STAR];
      } else {
        if OPEN_BRACE in segment || CLOSE_BRACE in segment {
          return Err(InvalidSegment(segment));
        }
        if (kind == Request || kind == Publish) && (segment == STAR || segment == GT) {
          return Err(RawWildcard(segment));
        }
        assert placeholders + [] == placeholders;
        pattern := pattern + [segment];
      }
      pieces := pieces + [ReadSegment(segment, kind, isIdent).value];
    }
    ReadToEnd(template, kind, isIdent, pieces, pattern, placeholders);
    r := Ok(SubjectModel(template, Join(pattern), placeholders));
  }

  /** The code the client macro emits for one subject: length terms to sum and writes to perform. */
  datatype LengthTerm = One | Bytes(n: nat) | ParamLength(name: Str)

  datatype Write = PushDot | PushText(text: Str) | PushParam(name: Str)

  datatype SubjectExpression = Static(subject: Str) | Dynamic(lengthTerms: seq<LengthTerm>, writes: seq<Write>)

  /** The displayed value of every placeholder argument. */
  type Arguments = map<Str, Str>

  predicate Needs(writes: seq<Write>, arguments: Arguments) {
    forall w | w in writes && w.PushParam? :: w.name in arguments
  }

  predicate NeedsLengths(terms: seq<LengthTerm>, arguments: Arguments) {
    forall t | t in terms && t.ParamLength? :: t.name in arguments
  }

  function WriteText(w: Write, arguments: Arguments): Str
    requires w.PushParam? ==> w.name in arguments
  {
    match w
    case PushDot => [DOT]
    case PushText(text) => text
    case PushParam(name) => arguments[name]
  }

  /** The string left in `__subject` by the emitted writes. */
  function Written(writes: seq<Write>, arguments: Arguments): Str
    requires Needs(writes, arguments)
  {
    if writes == [] then []
    else Written(writes[..|writes| - 1], arguments) + WriteText(writes[|writes| - 1], arguments)
  }

  function TermLength(t: LengthTerm, arguments: Arguments): nat
    requires t.ParamLength? ==> t.name in arguments
  {
    match t
    case One => 1
    case Bytes(n) => n
    case ParamLength(name) => |arguments[name]|
  }

  /** `__capacity`. */
  function Capacity(terms: seq<LengthTerm>, arguments: Arguments): nat
    requires NeedsLengths(terms, arguments)
  {
    if terms == [] then 0
    else Capacity(terms[..|terms| - 1], arguments) + TermLength(terms[|terms| - 1], arguments)
  }

  /** The client strips the braces of a placeholder segment; anything else it writes verbatim. */
  function ClientPiece(segment: Str): Piece {
    if |segment| >= 2 && segment[0] == OPEN_BRACE && segment[|segment| - 1] == CLOSE_BRACE then Hole(Inner(segment))
    else Literal(segment)
  }

  function Value(piece: Piece, arguments: Arguments): Str
    requires piece.Hole? ==> piece.name in arguments
  {
    match piece
    case Hole(name) => arguments[name]
    case Literal(text) => text
  }

  /** The client can name every placeholder of these segments. */
  predicate Supplies(segments: seq<Str>, arguments: Arguments) {
    forall segment | segment in segments && ClientPiece(segment).Hole? :: ClientPiece(segment).name in arguments
  }

  function Values(segments: seq<Str>, arguments: Arguments): (values: seq<Str>)
    requires Supplies(segments, arguments)
    ensures |values| == |segments|
  {
    seq(|segments|, i requires 0 <= i < |segments| =>
      assert segments[i] in segments; Value(ClientPiece(segments[i]), arguments))
  }

  /** `Join` grows by one token at its end. */
  lemma {:induction false} JoinSnoc(tokens: seq<Str>, token: Str)
    requires tokens != []
    ensures Join(tokens + [token]) == Join(tokens) + [DOT] + token
  {
    if |tokens| > 1 {
      JoinSnoc(tokens[1..], token);
      assert (tokens + [token])[1..] == tokens[1..] + [token];
    }
  }

  /** The emitted code, whatever arguments it will later run with, writes the template with every
      placeholder replaced, into exactly the capacity it computed. */
  ghost predicate Emits(model: SubjectModel, e: SubjectExpression) {
    if model.placeholders == [] then e == Static(model.pattern)
    else
      && e.Dynamic?
      && forall arguments: Arguments | Supplies(Split(model.template), arguments) ::
           EmittedFor(Split(model.template), e.lengthTerms, e.writes, arguments)
  }

  /** `subject_expression`. */
  method SubjectExpressionFor(model: SubjectModel) returns (e: SubjectExpression)
    ensures Emits(model, e)
  {
    if model.placeholders == [] {
      return Static(model.pattern);
    }
    hide Emits, EmittedForAll, EmittedFor, Split, Supplies, ClientPiece, Inner;
    var segments := Split(model.template);
    var terms: seq<LengthTerm> := [];
    var writes: seq<Write> := [];
    NothingEmitted(segments);
    for index := 0 to |segments|
      invariant EmittedForAll(segments, index, terms, writes)
    {
      EmitNext(segments, index, terms, writes);
      ghost var termsBefore, writesBefore := terms, writes;
      if index > 0 {
        terms := terms + [One];
        writes := writes + [PushDot];
      }
      assert terms == if index == 0 then termsBefore else termsBefore + [One];
      assert writes == if index == 0 then writesBefore else writesBefore + [PushDot];
      var segment := segments[index];
      var piece := ClientPiece(segment);
      if piece.Hole? {
        terms := terms + [ParamLength(piece.name)];
        writes := writes + [PushParam(piece.name)];
      } else {
        terms := terms + [Bytes(|segment|)];
        writes := writes + [PushText(segment)];
      }
    }
    AllEmitted(model, terms, writes);
    e := Dynamic(terms, writes);
  }

  ghost predicate EmittedFor(segments: seq<Str>, terms: seq<LengthTerm>, writes: seq<Write>, arguments: Arguments) {
    && Supplies(segments, arguments)
    && NeedsLengths(terms, arguments) && Needs(writes, arguments)
    && Written(writes, arguments) == (if segments == [] then [] else Join(Values(segments, arguments)))
    && Capacity(terms, arguments) == |Written(writes, arguments)|
  }

  /** The code emitted for the first `n` segments, for every choice of arguments. */
  ghost predicate EmittedForAll(segments: seq<Str>, n: nat, terms: seq<LengthTerm>, writes: seq<Write>) {
    n <= |segments|
    && forall arguments: Arguments | Supplies(segments, arguments) :: EmittedFor(segments[..n], terms, writes, arguments)
  }

  lemma NothingEmitted(segments: seq<Str>)
    ensures EmittedForAll(segments, 0, [], [])
  {}

  lemma AllEmitted(model: SubjectModel, terms: seq<LengthTerm>, writes: seq<Write>)
    requires model.placeholders != [] && EmittedForAll(Split(model.template), |Split(model.template)|, terms, writes)
    ensures Emits(model, Dynamic(terms, writes))
  {
    hide EmittedFor, Supplies, Split;
    var segments := Split(model.template);
    assert segments[..|segments|] == segments;
  }

  lemma EmitNext(segments: seq<Str>, n: nat, terms: seq<LengthTerm>, writes: seq<Write>)
    requires n < |segments| && EmittedForAll(segments, n, terms, writes)
    ensures
      var piece := ClientPiece(segments[n]);
      EmittedForAll(segments, n + 1,
                    (if n == 0 then terms else terms + [One])
                    + [if piece.Hole? then ParamLength(piece.name) else Bytes(|segments[n]|)],
                    (if n == 0 then writes else writes + [PushDot])
                    + [if piece.Hole? then PushParam(piece.name) else PushText(segments[n])])
  {
    hide EmittedFor, ClientPiece;
    assert segments[..n + 1] == segments[..n] + [segments[n]];
    forall arguments: Arguments | Supplies(segments, arguments)
      ensures EmittedFor(segments[..n], terms, writes, arguments) && Supplies([segments[n]], arguments)
    {
      assert segments[n] in segments;
    }
    forall arguments: Arguments | Supplies(segments, arguments) {
      EmitSegment(segments[..n], segments[n], terms, writes, arguments);
    }
  }

  lemma WriteOne(terms: seq<LengthTerm>, writes: seq<Write>, t: LengthTerm, w: Write, arguments: Arguments)
    requires NeedsLengths(terms, arguments) && Needs(writes, arguments)
    requires t.ParamLength? ==> t.name in arguments
    requires w.PushParam? ==> w.name in arguments
    ensures NeedsLengths(terms + [t], arguments) && Needs(writes + [w], arguments)
    ensures Written(writes + [w], arguments) == Written(writes, arguments) + WriteText(w, arguments)
    ensures Capacity(terms + [t], arguments) == Capacity(terms, arguments) + TermLength(t, arguments)
  {
    assert (writes + [w])[..|writes|] == writes;
    assert (terms + [t])[..|terms|] == terms;
  }

  lemma EmitSegment(segments: seq<Str>, segment: Str, terms: seq<LengthTerm>, writes: seq<Write>, arguments: Arguments)
    requires EmittedFor(segments, terms, writes, arguments)
    requires Supplies([segment], arguments)
    ensures
      var terms1 := if segments == [] then terms else terms + [One];
      var writes1 := if segments == [] then writes else writes + [PushDot];
      var piece := ClientPiece(segment);
      EmittedFor(segments + [segment],
                 terms1 + [if piece.Hole? then ParamLength(piece.name) else Bytes(|segment|)],
                 writes1 + [if piece.Hole? then PushParam(piece.name) else PushText(segment)],
                 arguments)
  {
    hide Written, Capacity, Join, Values;
    var terms1, writes1 := terms, writes;
    if segments != [] {
      WriteOne(terms, writes, One, PushDot, arguments);
      terms1, writes1 := terms + [One], writes + [PushDot];
    }
    assert segment in [segment];
    var piece := ClientPiece(segment);
    WriteOne(terms1, writes1,
             if piece.Hole? then ParamLength(piece.name) else Bytes(|segment|),
             if piece.Hole? then PushParam(piece.name) else PushText(segment), arguments);
    var values := Values(segments, arguments);
    ValuesSnoc(segments, segment, arguments);
    if segments != [] {
      JoinSnoc(values, Value(piece, arguments));
    } else {
      JoinOne(Value(piece, arguments));
      assert values == [] && values + [Value(piece, arguments)] == [Value(piece, arguments)];
    }
  }

  lemma JoinOne(token: Str)
    ensures Join([token]) == token
  {}

  lemma ValuesSnoc(segments: seq<Str>, segment: Str, arguments: Arguments)
    requires Supplies(segments, arguments) && Supplies([segment], arguments)
    ensures Supplies(segments + [segment], arguments)
    ensures ClientPiece(segment).Hole? ==> ClientPiece(segment).name in arguments
    ensures Values(segments + [segment], arguments) == Values(segments, arguments) + [Value(ClientPiece(segment), arguments)]
  {
    assert segment in [segment];
  }

  /** The values the client writes, read against the pieces the server parsed. */
  lemma ValuesFillPieces(template: Str, kind: OperationKind, isIdent: Str -> bool, arguments: Arguments)
    requires template != [] && Accepted(template, kind, isIdent) && kind in {Request, Publish}
    requires Supplies(Split(template), arguments)
    requires forall name | name in arguments :: DOT !in arguments[name]
    ensures DotFree(Values(Split(template), arguments))
    ensures
      var pieces := Pieces(template, kind, isIdent);
      forall i | 0 <= i < |pieces| ::
        match pieces[i]
        case Hole(name) => name in arguments && Values(Split(template), arguments)[i] == arguments[name]
        case Literal(text) => text != GT && Values(Split(template), arguments)[i] == text
  {
    var segments := Split(template);
    SplitDotFree(template);
    forall i | 0 <= i < |segments|
      ensures ReadSegment(segments[i], kind, isIdent).Ok? && DOT !in segments[i]
      ensures ClientPiece(segments[i]).Hole? ==> ClientPiece(segments[i]).name in arguments
    {
      assert segments[i] in segments;
    }
  }

  lemma FilledPiecesMatch(pieces: seq<Piece>, values: seq<Str>)
    requires |pieces| == |values| > 0
    requires forall i | 0 <= i < |pieces| && pieces[i].Literal? :: pieces[i].text != GT && pieces[i].text == values[i]
    ensures Matches(PatternTokens(pieces), values)
  {
    assert STAR != GT;
  }

  /** A template without placeholders is its own pattern. */
  lemma StaticSubjectIsTemplate(template: Str, kind: OperationKind, isIdent: Str -> bool, model: SubjectModel)
    requires ParsesTo(template, kind, isIdent, Ok(model)) && model.placeholders == []
    ensures model.pattern == template
  {
    if template != [] {
      var segments := Split(template);
      forall i | 0 <= i < |segments|
        ensures Split(model.pattern)[i] == segments[i]
      {
        assert segments[i] in segments;
      }
      assert Split(model.pattern) == segments;
      JoinSplit(model.pattern);
      JoinSplit(template);
    }
  }

  /** The subject a client call uses. */
  function ClientSubject(e: SubjectExpression, arguments: Arguments): Str
    requires e.Dynamic? ==> Needs(e.writes, arguments)
  {
    match e
    case Static(subject) => subject
    case Dynamic(_, writes) => Written(writes, arguments)
  }

  /** For every accepted request or publish template and all dot-free arguments, the subject the client
      builds has exactly the computed capacity and matches the server's pattern, and the segment at each
      recorded placeholder index is the value of that argument. */
  lemma ClientAndServerAgree(template: Str, kind: OperationKind, isIdent: Str -> bool,
                             model: SubjectModel, e: SubjectExpression, arguments: Arguments)
    requires ParsesTo(template, kind, isIdent, Ok(model)) && kind in {Request, Publish}
    requires Emits(model, e)
    requires Supplies(Split(template), arguments)
    requires forall name | name in arguments :: DOT !in arguments[name]
    ensures e.Dynamic? ==> Needs(e.writes, arguments) && NeedsLengths(e.lengthTerms, arguments)
    ensures
      var subject := ClientSubject(e, arguments);
      && (e.Dynamic? ==> |subject| == Capacity(e.lengthTerms, arguments))
      && Matches(Split(model.pattern), Split(subject))
      && forall k | 0 <= k < |model.placeholders| ::
           var (name, index) := model.placeholders[k];
           name in arguments && index < |Split(subject)| && Split(subject)[index] == arguments[name]
  {
    hide Join, Written, Capacity, ReadSegment;
    if e.Dynamic? {
      assert EmittedFor(Split(template), e.lengthTerms, e.writes, arguments);
    }
    if template != [] {
      var values := Values(Split(template), arguments);
      var pieces := Pieces(template, kind, isIdent);
      ValuesFillPieces(template, kind, isIdent, arguments);
      SplitJoin(values);
      FilledPiecesMatch(pieces, values);
      if e.Static? {
        StaticSubjectIsTemplate(template, kind, isIdent, model);
        NoHolesNoChange(pieces, values, model.placeholders);
      }
    }
  }

  lemma NoHolesNoChange(pieces: seq<Piece>, values: seq<Str>, placeholders: seq<(Str, nat)>)
    requires ListsHoles(placeholders, pieces) && placeholders == [] && |pieces| == |values|
    requires forall i | 0 <= i < |pieces| && pieces[i].Literal? :: pieces[i].text == values[i]
    ensures PatternTokens(pieces) == values
  {}
}
