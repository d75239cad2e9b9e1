/** The wire format of `#[service_error]` enums (nats-micro-macros/src/service_error/mod.rs): which
    descriptions the macro accepts, the encoder and decoder it generates, and what they do together. */
module ErrorWire {
  import opened Text
  import ErrorFormat

  // ----- the description of an enum

  datatype Mode = SelfContained | ExternalDerive

  /** How a field carries `#[from]`, `#[source]` or `#[backtrace]`. */
  datatype RoleAttr = Absent | Bare | WithArguments

  datatype DetailsAttr = Skip | BadDetailsAttr
  datatype CodeAttr = Code(value: nat) | BadCodeAttr
  datatype InternalAttr = Internal | InternalExposeKind | BadInternalAttr
  datatype KindAttr = Kind(value: string) | BadKindAttr
  datatype ErrorAttr =
    | NoErrorAttr
    | BadErrorAttr
    | Message(message: string, args: seq<ErrorFormat.FormatArg>)
    | Transparent

  datatype Type = StringType | OtherType(id: nat)

  datatype Field = Field(
    name: string, ty: Type, from: RoleAttr, source: RoleAttr, backtrace: RoleAttr, details: seq<DetailsAttr>)

  datatype Fields = Unit | Unnamed(fields: seq<Field>) | Named(fields: seq<Field>)

  /** `defaultKind` is the variant's name in upper snake case. */
  datatype Variant = Variant(
    defaultKind: string, fields: Fields, error: ErrorAttr, code: seq<CodeAttr>, internal: seq<InternalAttr>,
    kind: seq<KindAttr>, details: seq<DetailsAttr>)

  datatype MacroError =
    | MissingErrorAttr
    | MalformedErrorAttr
    | RoleWithArguments
    | DuplicateFrom
    | DuplicateSource
    | FromNeedsSingleField
    | TransparentNeedsSingleField
    | MalformedDetails
    | MalformedCode
    | MalformedInternal
    | MalformedKind
    | DuplicateWireKind(code: nat, kind: string)
    | MalformedDisplay(error: ErrorFormat.DisplayError)

  function FieldsOf(v: Variant): seq<Field> {
    if v.fields.Unit? then [] else v.fields.fields
  }

  // ----- single attributes

  function DetailsSkip(attrs: seq<DetailsAttr>): Result<bool, MacroError> {
    if attrs == [] then Ok(false) else if attrs == [Skip] then Ok(true) else Err(MalformedDetails)
  }

  function VariantCode(attrs: seq<CodeAttr>): Result<Option<nat>, MacroError> {
    if attrs == [] then Ok(None)
    else if |attrs| == 1 && attrs[0].Code? && 400 <= attrs[0].value <= 599 then Ok(Some(attrs[0].value))
    else Err(MalformedCode)
  }

  function VariantInternal(attrs: seq<InternalAttr>): Result<Option<InternalAttr>, MacroError> {
    if attrs == [] then Ok(None)
    else if |attrs| == 1 && !attrs[0].BadInternalAttr? then Ok(Some(attrs[0]))
    else Err(MalformedInternal)
  }

  predicate IsUpper(c: char) {
    'A' <= c <= 'Z'
  }

  predicate IsWireKind(s: string) {
    && s != [] && IsUpper(s[0])
    && forall i | 1 <= i < |s| :: IsUpper(s[i]) || ErrorFormat.IsDigit(s[i]) || s[i] == '_'
  }

  function VariantKind(attrs: seq<KindAttr>): Result<Option<string>, MacroError> {
    if attrs == [] then Ok(None)
    else if |attrs| == 1 && attrs[0].Kind? && IsWireKind(attrs[0].value) then Ok(Some(attrs[0].value))
    else Err(MalformedKind)
  }

  // ----- the roles of the fields

  datatype Role = Role(source: bool, from: bool, backtrace: bool, detailsSkip: bool)

  datatype FieldMeta = FieldMeta(roles: seq<Role>, fromIndex: Option<nat>, sourceIndex: Option<nat>, detailsSkipAll: bool)

  predicate IsFrom(v: Variant, k: nat)
    requires k < |FieldsOf(v)|
  {
    !FieldsOf(v)[k].from.Absent?
  }

  /** A field is the source if it says so, is `#[from]`, or is named `source`. */
  predicate IsSource(v: Variant, k: nat)
    requires k < |FieldsOf(v)|
  {
    var f := FieldsOf(v)[k];
    IsFrom(v, k) || !f.source.Absent? || (v.fields.Named? && f.name == "source")
  }

  predicate Takes(f: Field, mode: Mode) {
    && DetailsSkip(f.details).Ok?
    && (mode.SelfContained? ==> !f.from.WithArguments? && !f.source.WithArguments? && !f.backtrace.WithArguments?)
  }

  /** The field attributes that `FieldMeta::for_variant` accepts. */
  predicate TakesFields(v: Variant, mode: Mode, transparent: bool) {
    && DetailsSkip(v.details).Ok?
    && (forall k | 0 <= k < |FieldsOf(v)| :: Takes(FieldsOf(v)[k], mode))
    && (mode.SelfContained? ==>
          && !TwoFroms(v, |FieldsOf(v)|) && !TwoSources(v, |FieldsOf(v)|)
          && (SomeFrom(v, |FieldsOf(v)|) || transparent ==> |FieldsOf(v)| == 1))
  }

  predicate SomeFrom(v: Variant, n: nat) {
    exists k | 0 <= k < n && k < |FieldsOf(v)| :: IsFrom(v, k)
  }

  predicate TwoFroms(v: Variant, n: nat) {
    exists j, k | 0 <= j < k < n && k < |FieldsOf(v)| :: IsFrom(v, j) && IsFrom(v, k)
  }

  predicate TwoSources(v: Variant, n: nat) {
    exists j, k | 0 <= j < k < n && k < |FieldsOf(v)| :: IsSource(v, j) && IsSource(v, k)
  }

  function RoleOf(v: Variant, k: nat, transparent: bool): Role
    requires k < |FieldsOf(v)|
  {
    var f := FieldsOf(v)[k];
    Role(IsSource(v, k) || (transparent && |FieldsOf(v)| == 1), IsFrom(v, k), !f.backtrace.Absent?, DetailsSkip(f.details) == Ok(true))
  }

  ghost predicate Describes(meta: FieldMeta, v: Variant, transparent: bool) {
    && |meta.roles| == |FieldsOf(v)|
    && (forall k | 0 <= k < |meta.roles| :: meta.roles[k] == RoleOf(v, k, transparent))
    && (meta.fromIndex.Some? <==> SomeFrom(v, |FieldsOf(v)|))
    && (meta.fromIndex.Some? ==> meta.fromIndex.value < |meta.roles| && meta.roles[meta.fromIndex.value].from)
    && (meta.sourceIndex.Some? <==> exists k | 0 <= k < |meta.roles| :: meta.roles[k].source)
    && (meta.sourceIndex.Some? ==> meta.sourceIndex.value < |meta.roles| && meta.roles[meta.sourceIndex.value].source)
    && meta.detailsSkipAll == (DetailsSkip(v.details) == Ok(true))
  }

  /** Each error of the field attributes is raised only for what it says. */
  ghost predicate Explains(error: MacroError, v: Variant, mode: Mode, transparent: bool) {
    match error
    case MalformedDetails =>
      DetailsSkip(v.details).Err? || exists k | 0 <= k < |FieldsOf(v)| :: DetailsSkip(FieldsOf(v)[k].details).Err?
    case RoleWithArguments =>
      mode.SelfContained? && exists k | 0 <= k < |FieldsOf(v)| ::
        var f := FieldsOf(v)[k];
        f.from.WithArguments? || f.source.WithArguments? || f.backtrace.WithArguments?
    case DuplicateFrom => mode.SelfContained? && TwoFroms(v, |FieldsOf(v)|)
    case DuplicateSource => mode.SelfContained? && TwoSources(v, |FieldsOf(v)|)
    case FromNeedsSingleField => mode.SelfContained? && SomeFrom(v, |FieldsOf(v)|) && |FieldsOf(v)| != 1
    case TransparentNeedsSingleField => mode.SelfContained? && transparent && |FieldsOf(v)| != 1
    case _ => false
  }

  /** `field_role_attr`. */
  function FieldRole(attr: RoleAttr, mode: Mode): Result<bool, MacroError> {
    if attr.Absent? then Ok(false)
    else if mode.SelfContained? && attr.WithArguments? then Err(RoleWithArguments)
    else Ok(true)
  }

  /** The four attributes of one field. */
  method ReadRole(v: Variant, k: nat, mode: Mode) returns (r: Result<Role, MacroError>)
    requires k < |FieldsOf(v)|
    ensures r.Ok? <==> Takes(FieldsOf(v)[k], mode)
    ensures r.Ok? ==> r.value == RoleOf(v, k, false)
    ensures r.Err? ==> forall transparent :: Explains(r.error, v, mode, transparent)
  {
    var f := FieldsOf(v)[k];
    var from := FieldRole(f.from, mode);
    if from.Err? {
      return Err(from.error);
    }
    var source := FieldRole(f.source, mode);
    if source.Err? {
      return Err(source.error);
    }
    var implicitSource := v.fields.Named? && f.name == "source";
    var backtrace := FieldRole(f.backtrace, mode);
    if backtrace.Err? {
      return Err(backtrace.error);
    }
    var skip := DetailsSkip(f.details);
    if skip.Err? {
      return Err(skip.error);
    }
    return Ok(Role(from.value || source.value || implicitSource, from.value, backtrace.value, skip.value));
  }

  /** What the loop of `for_variant` knows after `k` fields. */
  ghost predicate Scanned(v: Variant, mode: Mode, k: nat, roles: seq<Role>, fromIndex: Option<nat>, sourceIndex: Option<nat>) {
    && |roles| == k <= |FieldsOf(v)|
    && (forall j | 0 <= j < k :: Takes(FieldsOf(v)[j], mode) && roles[j] == RoleOf(v, j, false))
    && (fromIndex.Some? <==> SomeFrom(v, k))
    && (fromIndex.Some? ==> fromIndex.value < k && IsFrom(v, fromIndex.value))
    && (sourceIndex.Some? <==> SomeSource(v, k))
    && (sourceIndex.Some? ==> sourceIndex.value < k && IsSource(v, sourceIndex.value))
    && (mode.SelfContained? ==> !TwoFroms(v, k) && !TwoSources(v, k))
  }

  predicate SomeSource(v: Variant, n: nat) {
    exists k | 0 <= k < n && k < |FieldsOf(v)| :: IsSource(v, k)
  }

  /** The roles after the fields, with the one field of a transparent variant as its source. */
  function Finished(roles: seq<Role>, fromIndex: Option<nat>, sourceIndex: Option<nat>, transparent: bool, skipAll: bool): FieldMeta {
    if transparent && |roles| == 1 then FieldMeta([roles[0].(source := true)], fromIndex, Some(0), skipAll)
    else FieldMeta(roles, fromIndex, sourceIndex, skipAll)
  }

  lemma ScanNext(v: Variant, mode: Mode, k: nat, roles: seq<Role>, fromIndex: Option<nat>, sourceIndex: Option<nat>)
    requires k < |FieldsOf(v)| && Scanned(v, mode, k, roles, fromIndex, sourceIndex)
    requires Takes(FieldsOf(v)[k], mode)
    requires mode.SelfContained? ==> !(IsFrom(v, k) && fromIndex.Some?) && !(IsSource(v, k) && sourceIndex.Some?)
    ensures Scanned(v, mode, k + 1, roles + [RoleOf(v, k, false)],
                    if IsFrom(v, k) then Some(k) else fromIndex, if IsSource(v, k) then Some(k) else sourceIndex)
  {
    hide Takes, IsFrom, IsSource, RoleOf;
  }

  lemma ScanDone(v: Variant, mode: Mode, transparent: bool, roles: seq<Role>, fromIndex: Option<nat>, sourceIndex: Option<nat>, skipAll: bool)
    requires Scanned(v, mode, |FieldsOf(v)|, roles, fromIndex, sourceIndex) && DetailsSkip(v.details) == Ok(skipAll)
    requires mode.SelfContained? && (fromIndex.Some? || transparent) ==> |roles| == 1
    ensures TakesFields(v, mode, transparent)
    ensures Describes(Finished(roles, fromIndex, sourceIndex, transparent, skipAll), v, transparent)
  {
    hide Takes, IsFrom, IsSource, RoleOf, DetailsSkip;
    RolesAre(v, transparent);
    if sourceIndex.Some? {
      assert roles[sourceIndex.value].source;
    }
  }

  /** `FieldMeta::for_variant`. */
  method ForVariant(v: Variant, mode: Mode, transparent: bool) returns (r: Result<FieldMeta, MacroError>)
    ensures r.Ok? <==> TakesFields(v, mode, transparent)
    ensures r.Ok? ==> Describes(r.value, v, transparent)
    ensures r.Err? ==> Explains(r.error, v, mode, transparent)
  {
    hide DetailsSkip, Takes, RoleOf, Scanned, Describes, IsFrom, IsSource, FieldsOf;
    var fields := FieldsOf(v);
    var roles: seq<Role>, sourceIndex: Option<nat>, fromIndex: Option<nat> := [], None, None;
    var skipAll := DetailsSkip(v.details);
    if skipAll.Err? {
      SkipError(v, mode, transparent);
      return Err(skipAll.error);
    }
    ScanStarts(v, mode);
    for k := 0 to |fields|
      invariant Scanned(v, mode, k, roles, fromIndex, sourceIndex)
    {
      var role := ReadRole(v, k, mode);
      if role.Err? {
        return Err(role.error);
      }
      RoleIs(v, k);
      ScanHolds(v, mode, k, roles, fromIndex, sourceIndex);
      if role.value.from {
        if fromIndex.Some? && mode.SelfContained? {
          return Err(DuplicateFrom);
        }
      }
      if role.value.source {
        if sourceIndex.Some? && mode.SelfContained? {
          return Err(DuplicateSource);
        }
      }
      ScanNext(v, mode, k, roles, fromIndex, sourceIndex);
      fromIndex := if role.value.from then Some(k) else fromIndex;
      sourceIndex := if role.value.source then Some(k) else sourceIndex;
      roles := roles + [role.value];
    }
    ScanHolds(v, mode, |fields|, roles, fromIndex, sourceIndex);
    if mode.SelfContained? && fromIndex.Some? && |roles| != 1 {
      return Err(FromNeedsSingleField);
    }
    if transparent && mode.SelfContained? && |roles| != 1 {
      return Err(TransparentNeedsSingleField);
    }
    ScanDone(v, mode, transparent, roles, fromIndex, sourceIndex, skipAll.value);
    if transparent && |roles| == 1 {
      roles := [roles[0].(source := true)];
      sourceIndex := Some(0);
    }
    return Ok(FieldMeta(roles, fromIndex, sourceIndex, skipAll.value));
  }

  lemma ScanStarts(v: Variant, mode: Mode)
    ensures Scanned(v, mode, 0, [], None, None)
  {}

  lemma ScanHolds(v: Variant, mode: Mode, k: nat, roles: seq<Role>, fromIndex: Option<nat>, sourceIndex: Option<nat>)
    requires Scanned(v, mode, k, roles, fromIndex, sourceIndex)
    ensures |roles| == k <= |FieldsOf(v)| && (fromIndex.Some? <==> SomeFrom(v, k))
    ensures k < |FieldsOf(v)| && fromIndex.Some? && IsFrom(v, k) ==> TwoFroms(v, |FieldsOf(v)|)
    ensures k < |FieldsOf(v)| && sourceIndex.Some? && IsSource(v, k) ==> TwoSources(v, |FieldsOf(v)|)
  {}

  lemma SkipError(v: Variant, mode: Mode, transparent: bool)
    requires DetailsSkip(v.details).Err?
    ensures Explains(DetailsSkip(v.details).error, v, mode, transparent)
  {}

  lemma RoleIs(v: Variant, k: nat)
    requires k < |FieldsOf(v)|
    ensures RoleOf(v, k, false).from == IsFrom(v, k) && RoleOf(v, k, false).source == IsSource(v, k)
  {}

  lemma RolesAre(v: Variant, transparent: bool)
    ensures forall k | 0 <= k < |FieldsOf(v)| ::
              && RoleOf(v, k, transparent) ==
                 (if transparent && |FieldsOf(v)| == 1 then RoleOf(v, k, false).(source := true) else RoleOf(v, k, false))
              && RoleOf(v, k, false).source == IsSource(v, k) && RoleOf(v, k, false).from == IsFrom(v, k)
  {}

  // ----- the key of a variant on the wire

  const INTERNAL_KIND := "INTERNAL_ERROR"

  datatype Header = Header(code: nat, kind: string, internal: bool)

  /** An internal variant that shows nothing but the common kind. */
  predicate Generic(h: Header) {
    h.internal && h.kind == INTERNAL_KIND
  }

  function IsTransparent(v: Variant): bool {
    v.error.Transparent?
  }

  predicate AttrsOk(v: Variant) {
    VariantCode(v.code).Ok? && VariantInternal(v.internal).Ok? && VariantKind(v.kind).Ok?
  }

  function HeaderOf(v: Variant): Header
    requires AttrsOk(v)
  {
    var code, internal, kind := VariantCode(v.code).value, VariantInternal(v.internal).value, VariantKind(v.kind).value;
    var isInternal := internal.Some? || ((SomeFrom(v, |FieldsOf(v)|) || IsTransparent(v)) && code.None?);
    Header(
      if code.Some? then code.value else if isInternal then 500 else 400,
      if kind.Some? then kind.value
      else if isInternal && internal != Some(InternalExposeKind) then INTERNAL_KIND
      else v.defaultKind,
      isInternal)
  }

  /** The codes a variant may be given, and the kinds: an upper-case letter, and then upper-case letters, digits
      and underscores. */
  ghost predicate GivesCode(attrs: seq<CodeAttr>, code: nat) {
    attrs == [Code(code)] && 400 <= code < 600
  }

  ghost predicate GivesKind(attrs: seq<KindAttr>, kind: string) {
    && attrs == [Kind(kind)] && kind != ""
    && forall i | 0 <= i < |kind| :: 'A' <= kind[i] <= 'Z' || (i > 0 && ('0' <= kind[i] <= '9' || kind[i] == '_'))
  }

  /** Nobody outside is to learn anything of this variant: it says so, or it wraps another error without having
      been given a code. */
  ghost predicate IsInternal(v: Variant) {
    || v.internal == [Internal] || v.internal == [InternalExposeKind]
    || (v.code == [] && (v.error == Transparent || exists f :: f in FieldsOf(v) && f.from != Absent))
  }

  /** The attributes that are accepted, and the code and kind under which a variant travels: those it was given,
      or else 500 if it is internal and 400 if not, and the common kind if it is internal and does not expose its
      own, and the variant's name in upper snake case if not. */
  lemma HeaderExactly(v: Variant, code: nat, kind: string)
    ensures AttrsOk(v) <==>
            && (v.code == [] || exists given :: GivesCode(v.code, given))
            && (v.internal == [] || v.internal == [Internal] || v.internal == [InternalExposeKind])
            && (v.kind == [] || exists given :: GivesKind(v.kind, given))
    ensures AttrsOk(v) ==>
              var h := HeaderOf(v);
              && (h.internal <==> IsInternal(v))
              && (v.code == [Code(code)] ==> h.code == code)
              && (v.code == [] ==> h.code == if IsInternal(v) then 500 else 400)
              && (v.kind == [Kind(kind)] ==> h.kind == kind)
              && (v.kind == [] ==> h.kind == if IsInternal(v) && v.internal != [InternalExposeKind] then "INTERNAL_ERROR" else v.defaultKind)
  {
    hide VariantCode, VariantInternal, VariantKind, GivesCode, GivesKind, SomeFrom;
    FromExactly(v);
    CodeExactly(v.code, code);
    InternalExactly(v.internal);
    KindExactly(v.kind, kind);
    AttrsExactly(v);
  }

  lemma AttrsExactly(v: Variant)
    ensures VariantCode(v.code).Ok? <==> v.code == [] || exists given :: GivesCode(v.code, given)
    ensures VariantInternal(v.internal).Ok? <==>
            v.internal == [] || v.internal == [Internal] || v.internal == [InternalExposeKind]
    ensures VariantKind(v.kind).Ok? <==> v.kind == [] || exists given :: GivesKind(v.kind, given)
  {
    hide VariantCode, VariantInternal, VariantKind, GivesCode, GivesKind;
    var code, internal, kind := VariantCode(v.code), VariantInternal(v.internal), VariantKind(v.kind);
    CodeExactly(v.code, if code.Ok? && code.value.Some? then code.value.value else 0);
    InternalExactly(v.internal);
    KindExactly(v.kind, if kind.Ok? && kind.value.Some? then kind.value.value else "");
    if internal.Ok? && internal.value.Some? {
      match internal.value.value
      case Internal =>
      case InternalExposeKind =>
      case BadInternalAttr =>
    }
    forall given
      ensures GivesCode(v.code, given) ==> VariantCode(v.code).Ok?
    {
      CodeExactly(v.code, given);
    }
    forall given
      ensures GivesKind(v.kind, given) ==> VariantKind(v.kind).Ok?
    {
      KindExactly(v.kind, given);
    }
  }

  lemma CodeExactly(attrs: seq<CodeAttr>, code: nat)
    ensures VariantCode(attrs) == Ok(Some(code)) <==> GivesCode(attrs, code)
    ensures VariantCode(attrs) == Ok(None) <==> attrs == []
    ensures attrs == [Code(code)] && VariantCode(attrs).Ok? ==> VariantCode(attrs) == Ok(Some(code))
  {
    if |attrs| == 1 && attrs[0].Code? {
      assert attrs == [Code(attrs[0].value)];
    }
  }

  lemma InternalExactly(attrs: seq<InternalAttr>)
    ensures VariantInternal(attrs) == Ok(None) <==> attrs == []
    ensures VariantInternal(attrs) == Ok(Some(Internal)) <==> attrs == [Internal]
    ensures VariantInternal(attrs) == Ok(Some(InternalExposeKind)) <==> attrs == [InternalExposeKind]
    ensures VariantInternal(attrs) != Ok(Some(BadInternalAttr))
  {
    if |attrs| == 1 {
      assert attrs == [attrs[0]];
    }
  }

  lemma KindExactly(attrs: seq<KindAttr>, kind: string)
    ensures VariantKind(attrs) == Ok(Some(kind)) <==> GivesKind(attrs, kind)
    ensures VariantKind(attrs) == Ok(None) <==> attrs == []
    ensures attrs == [Kind(kind)] && VariantKind(attrs).Ok? ==> VariantKind(attrs) == Ok(Some(kind))
  {
    if |attrs| == 1 && attrs[0].Kind? {
      assert attrs == [Kind(attrs[0].value)];
    }
  }

  lemma FromExactly(v: Variant)
    ensures SomeFrom(v, |FieldsOf(v)|) <==> exists f :: f in FieldsOf(v) && f.from != Absent
  {
    if SomeFrom(v, |FieldsOf(v)|) {
      var k :| 0 <= k < |FieldsOf(v)| && IsFrom(v, k);
      assert FieldsOf(v)[k] in FieldsOf(v);
    }
    if exists f :: f in FieldsOf(v) && f.from != Absent {
      var f :| f in FieldsOf(v) && f.from != Absent;
      var k :| 0 <= k < |FieldsOf(v)| && FieldsOf(v)[k] == f;
      assert IsFrom(v, k);
    }
  }

  /** Two variants clash if they share a key, unless neither has an arm of its own in the decoder. */
  predicate Clash(a: Header, b: Header) {
    a.code == b.code && a.kind == b.kind && !(Generic(a) && Generic(b))
  }

  /** Two variants clash exactly if they would share an arm of the decoder, or one would shadow the common kind of
      the other: they have the same code and kind, and not both are internal under the common kind. */
  lemma ClashesExactly(a: Header, b: Header)
    ensures Clash(a, b) <==>
            a.code == b.code && a.kind == b.kind && !(a.internal && b.internal && a.kind == "INTERNAL_ERROR")
    ensures Clash(a, b) == Clash(b, a)
  {}

  // ----- the generated code

  datatype DetailsRule = NoDetails | RawString | TupleOf(wire: seq<nat>)

  datatype EncodeArm = EncodeArm(header: Header, details: DetailsRule)

  datatype DecodeRule = ToUntyped | ToUnit | ToText | ToTuple(types: seq<Type>)

  datatype DecodeArm = NoArm | DecodeArm(code: nat, kind: string, variant: nat, rule: DecodeRule)

  /** `wire_indices`: the fields that go on the wire. */
  function WireIndices(meta: FieldMeta): seq<nat> {
    WireFrom(meta, 0)
  }

  function WireFrom(meta: FieldMeta, k: nat): (wire: seq<nat>)
    requires k <= |meta.roles|
    ensures forall i | 0 <= i < |wire| :: k <= wire[i] < |meta.roles|
    decreases |meta.roles| - k
  {
    if k == |meta.roles| then []
    else
      var role := meta.roles[k];
      (if !meta.detailsSkipAll && !role.source && !role.from && !role.backtrace && !role.detailsSkip then [k] else [])
      + WireFrom(meta, k + 1)
  }

  /** `has_skipped_wire_fields`. */
  predicate HasSkipped(meta: FieldMeta) {
    || (meta.detailsSkipAll && meta.roles != [])
    || exists k | 0 <= k < |meta.roles| ::
         meta.roles[k].source || meta.roles[k].from || meta.roles[k].backtrace || meta.roles[k].detailsSkip
  }

  function TypesOf(fields: seq<Field>): (types: seq<Type>)
    ensures |types| == |fields| && forall k | 0 <= k < |fields| :: types[k] == fields[k].ty
  {
    seq(|fields|, k requires 0 <= k < |fields| => fields[k].ty)
  }

  /** The rules for a variant's details, before internal variants are taken out of the decoder. */
  function Rules(v: Variant, meta: FieldMeta, internal: bool): (DetailsRule, DecodeRule) {
    var wire := WireIndices(meta);
    if v.fields.Unit? then (NoDetails, ToUnit)
    else if v.fields.Unnamed? && |v.fields.fields| == 1 && |wire| == 1 && v.fields.fields[0].ty.StringType? then
      (if internal then NoDetails else RawString, ToText)
    else
      (if internal || wire == [] then NoDetails else TupleOf(wire),
       if HasSkipped(meta) then ToUntyped else ToTuple(TypesOf(v.fields.fields)))
  }

  function Arms(v: Variant, index: nat, meta: FieldMeta): (EncodeArm, DecodeArm)
    requires AttrsOk(v)
  {
    var h := HeaderOf(v);
    var (details, rule) := Rules(v, meta, h.internal);
    (EncodeArm(h, details),
     if !h.internal then DecodeArm(h.code, h.kind, index, rule)
     else if Generic(h) then NoArm
     else DecodeArm(h.code, h.kind, index, ToUntyped))
  }

  // ----- the macro

  predicate TakesError(v: Variant, mode: Mode, isIdent: string -> bool) {
    mode.SelfContained? ==>
      match v.error
      case NoErrorAttr => false
      case BadErrorAttr => false
      case Transparent => true
      case Message(message, args) => ErrorFormat.Arm(DisplayShape(v), message, args, isIdent).Ok?
  }

  function DisplayShape(v: Variant): ErrorFormat.Shape {
    match v.fields
    case Unit => ErrorFormat.Unit
    case Unnamed(fields) => ErrorFormat.Unnamed(|fields|)
    case Named(fields) => ErrorFormat.Named(seq(|fields|, k requires 0 <= k < |fields| => fields[k].name))
  }

  /** The display string of a variant speaks of its fields: of as many as it has, by their names if they have
      names, and of none if it is a unit. */
  lemma ShapeIsOfTheFields(v: Variant, k: nat)
    ensures ErrorFormat.FieldCount(DisplayShape(v)) == |FieldsOf(v)|
    ensures DisplayShape(v) == ErrorFormat.Unit <==> v.fields == Unit
    ensures |ErrorFormat.FieldNames(DisplayShape(v))| == if v.fields.Named? then |FieldsOf(v)| else 0
    ensures v.fields.Named? && k < |FieldsOf(v)| ==> ErrorFormat.FieldNames(DisplayShape(v))[k] == FieldsOf(v)[k].name
  {}

  /** A field is the source of an error: marked so, converted from, or called `source`. */
  ghost predicate Sources(v: Variant, f: Field) {
    f.source != Absent || f.from != Absent || (v.fields.Named? && f.name == "source")
  }

  /** Which field attributes are accepted. Details are skipped or not mentioned; and where the macro generates
      everything itself, no role has arguments, at most one field is converted from and at most one the source,
      and a variant with the first kind of field, or a transparent one, has no other field. */
  lemma FieldsAreTakenExactly(v: Variant, mode: Mode, transparent: bool)
    ensures TakesFields(v, mode, transparent) <==>
            && (v.details == [] || v.details == [Skip])
            && (forall f | f in FieldsOf(v) :: f.details == [] || f.details == [Skip])
            && (mode == SelfContained ==>
                  && (forall f | f in FieldsOf(v) :: f.from != WithArguments && f.source != WithArguments && f.backtrace != WithArguments)
                  && (forall j, k | 0 <= j < k < |FieldsOf(v)| ::
                        && (FieldsOf(v)[j].from == Absent || FieldsOf(v)[k].from == Absent)
                        && !(Sources(v, FieldsOf(v)[j]) && Sources(v, FieldsOf(v)[k])))
                  && (transparent || (exists f :: f in FieldsOf(v) && f.from != Absent) ==> |FieldsOf(v)| == 1))
  {
    FromExactly(v);
    forall f
      ensures Takes(f, mode) <==>
              (f.details == [] || f.details == [Skip])
              && (mode == SelfContained ==> f.from != WithArguments && f.source != WithArguments && f.backtrace != WithArguments)
    {}
    hide Takes, SomeFrom;
    assert forall k | 0 <= k < |FieldsOf(v)| :: FieldsOf(v)[k] in FieldsOf(v);
    SourceIsSources(v);
  }

  lemma SourceIsSources(v: Variant)
    ensures forall k | 0 <= k < |FieldsOf(v)| :: IsSource(v, k) <==> Sources(v, FieldsOf(v)[k])
  {}

  /** What the macro accepts of one variant on its own. */
  predicate TakesVariant(v: Variant, mode: Mode, isIdent: string -> bool) {
    TakesError(v, mode, isIdent) && TakesFields(v, mode, IsTransparent(v)) && AttrsOk(v)
  }

  ghost predicate TakesAll(variants: seq<Variant>, n: nat, mode: Mode, isIdent: string -> bool) {
    forall i | 0 <= i < n && i < |variants| :: TakesVariant(variants[i], mode, isIdent)
  }

  /** The enums the macro accepts: each variant by itself, and no two that clash. This does not depend on
      the order of the variants. */
  ghost predicate Accepted(variants: seq<Variant>, n: nat, mode: Mode, isIdent: string -> bool) {
    && TakesAll(variants, n, mode, isIdent)
    && forall i, j | 0 <= i < j < n && j < |variants| :: !Clash(HeaderOf(variants[i]), HeaderOf(variants[j]))
  }

  ghost predicate Generated(variants: seq<Variant>, arms: seq<(EncodeArm, DecodeArm)>) {
    && |arms| <= |variants|
    && forall i | 0 <= i < |arms| ::
         AttrsOk(variants[i]) && ArmsOf(variants[i], i, arms[i])
  }

  ghost predicate ArmsOf(v: Variant, index: nat, arms: (EncodeArm, DecodeArm))
    requires AttrsOk(v)
  {
    exists meta :: Describes(meta, v, IsTransparent(v)) && arms == Arms(v, index, meta)
  }

  /** Each error of a variant's attributes is raised only for what it says. */
  ghost predicate Faulty(error: MacroError, v: Variant, mode: Mode) {
    match error
    case MissingErrorAttr => mode.SelfContained? && v.error.NoErrorAttr?
    case MalformedErrorAttr => mode.SelfContained? && v.error.BadErrorAttr?
    case MalformedCode => VariantCode(v.code).Err?
    case MalformedInternal => VariantInternal(v.internal).Err?
    case MalformedKind => VariantKind(v.kind).Err?
    case _ => Explains(error, v, mode, IsTransparent(v))
  }

  /** The error of a refused enum is about one of its variants, or about two that clash. */
  ghost predicate Refuses(error: MacroError, variants: seq<Variant>, mode: Mode, isIdent: string -> bool) {
    match error
    case DuplicateWireKind(code, kind) =>
      exists i, j | 0 <= i < j < |variants| ::
        && AttrsOk(variants[i]) && AttrsOk(variants[j])
        && Clash(HeaderOf(variants[i]), HeaderOf(variants[j])) && KeyOf(HeaderOf(variants[j])) == (code, kind)
    case MalformedDisplay(display) =>
      mode.SelfContained? && exists v | v in variants ::
        v.error.Message? && ErrorFormat.Arm(DisplayShape(v), v.error.message, v.error.args, isIdent) == Err(display)
    case _ => exists v | v in variants :: Faulty(error, v, mode)
  }

  /** One variant, up to its key. */
  method ReadVariant(v: Variant, mode: Mode) returns (r: Result<(FieldMeta, Header), MacroError>)
    ensures r.Ok? <==> TakesFields(v, mode, IsTransparent(v)) && AttrsOk(v) &&
                       (mode.SelfContained? ==> v.error.Transparent? || v.error.Message?)
    ensures r.Ok? ==> Describes(r.value.0, v, IsTransparent(v)) && r.value.1 == HeaderOf(v)
    ensures r.Err? ==> Faulty(r.error, v, mode) && !r.error.DuplicateWireKind? && !r.error.MalformedDisplay?
  {
    hide TakesFields, VariantCode, VariantInternal, VariantKind, RoleOf;
    if mode.SelfContained? {
      if v.error.NoErrorAttr? {
        return Err(MissingErrorAttr);
      }
      if v.error.BadErrorAttr? {
        return Err(MalformedErrorAttr);
      }
    }
    var meta := ForVariant(v, mode, IsTransparent(v));
    if meta.Err? {
      return Err(meta.error);
    }
    var code := VariantCode(v.code);
    var internal := VariantInternal(v.internal);
    var kind := VariantKind(v.kind);
    AttrErrors(v);
    if code.Err? {
      return Err(code.error);
    }
    if internal.Err? {
      return Err(internal.error);
    }
    if kind.Err? {
      return Err(kind.error);
    }
    var isInternal := internal.value.Some? || ((meta.value.fromIndex.Some? || IsTransparent(v)) && code.value.None?);
    var wireCode := if code.value.Some? then code.value.value else if isInternal then 500 else 400;
    var wireKind :=
      if kind.value.Some? then kind.value.value
      else if isInternal && internal.value != Some(InternalExposeKind) then INTERNAL_KIND
      else v.defaultKind;
    return Ok((meta.value, Header(wireCode, wireKind, isInternal)));
  }

  lemma AttrErrors(v: Variant)
    ensures VariantCode(v.code).Err? ==> VariantCode(v.code).error == MalformedCode
    ensures VariantInternal(v.internal).Err? ==> VariantInternal(v.internal).error == MalformedInternal
    ensures VariantKind(v.kind).Err? ==> VariantKind(v.kind).error == MalformedKind
  {}

  /** These are the keys of the first `n` variants that are, or are not, generic. */
  ghost predicate KeysOf(variants: seq<Variant>, n: nat, keys: set<(nat, string)>, generic: bool)
    requires n <= |variants| && forall i | 0 <= i < n :: AttrsOk(variants[i])
  {
    && (forall i | 0 <= i < n && Generic(HeaderOf(variants[i])) == generic :: KeyOf(HeaderOf(variants[i])) in keys)
    && (forall key | key in keys :: exists i | 0 <= i < n :: KeyIs(HeaderOf(variants[i]), key, generic))
  }

  function KeyOf(h: Header): (nat, string) {
    (h.code, h.kind)
  }

  predicate KeyIs(h: Header, key: (nat, string), generic: bool) {
    KeyOf(h) == key && Generic(h) == generic
  }

  ghost predicate Reserved(variants: seq<Variant>, n: nat, reserved: set<(nat, string)>, concrete: set<(nat, string)>)
    requires n <= |variants| && forall i | 0 <= i < n :: AttrsOk(variants[i])
  {
    KeysOf(variants, n, reserved, true) && KeysOf(variants, n, concrete, false)
  }

  /** Some earlier variant clashes with the n-th one. */
  ghost predicate ClashesBefore(variants: seq<Variant>, n: nat)
    requires n < |variants| && forall i | 0 <= i <= n :: AttrsOk(variants[i])
  {
    exists i | 0 <= i < n :: Clash(HeaderOf(variants[i]), HeaderOf(variants[n]))
  }

  lemma ClashIsFound(variants: seq<Variant>, n: nat, reserved: set<(nat, string)>, concrete: set<(nat, string)>)
    requires n < |variants| && forall i | 0 <= i <= n :: AttrsOk(variants[i])
    requires Reserved(variants, n, reserved, concrete)
    ensures
      var h := HeaderOf(variants[n]);
      ClashesBefore(variants, n) <==> KeyOf(h) in concrete || (!Generic(h) && KeyOf(h) in reserved)
  {
    hide HeaderOf, AttrsOk;
    var h := HeaderOf(variants[n]);
    if ClashesBefore(variants, n) {
      var i :| 0 <= i < n && Clash(HeaderOf(variants[i]), h);
      assert KeyIs(HeaderOf(variants[i]), KeyOf(h), Generic(HeaderOf(variants[i])));
    } else {
      forall i | 0 <= i < n
        ensures !Clash(HeaderOf(variants[i]), h)
      {}
    }
  }

  lemma KeysGrow(variants: seq<Variant>, n: nat, keys: set<(nat, string)>, generic: bool)
    requires n < |variants| && forall i | 0 <= i <= n :: AttrsOk(variants[i])
    requires KeysOf(variants, n, keys, generic)
    ensures
      var h := HeaderOf(variants[n]);
      KeysOf(variants, n + 1, if Generic(h) == generic then keys + {KeyOf(h)} else keys, generic)
  {
    hide HeaderOf, AttrsOk, Generic;
    var h := HeaderOf(variants[n]);
    var more := if Generic(h) == generic then keys + {KeyOf(h)} else keys;
    forall key | key in more
      ensures exists i | 0 <= i < n + 1 :: KeyIs(HeaderOf(variants[i]), key, generic)
    {
      if key in keys {
        var i :| 0 <= i < n && KeyIs(HeaderOf(variants[i]), key, generic);
        assert i < n + 1;
      } else {
        assert KeyIs(HeaderOf(variants[n]), key, generic);
      }
    }
  }

  lemma AcceptedNext(variants: seq<Variant>, n: nat, mode: Mode, isIdent: string -> bool)
    requires n < |variants| && Accepted(variants, n, mode, isIdent)
    ensures Accepted(variants, n + 1, mode, isIdent) <==>
            TakesVariant(variants[n], mode, isIdent) && !ClashesBefore(variants, n)
  {
    hide HeaderOf, AttrsOk, Clash, TakesFields, TakesError;
  }

  lemma RefusedStaysRefused(variants: seq<Variant>, n: nat, mode: Mode, isIdent: string -> bool)
    requires n <= |variants| && !Accepted(variants, n, mode, isIdent)
    ensures !Accepted(variants, |variants|, mode, isIdent)
  {
    hide HeaderOf, AttrsOk, Clash, TakesFields, TakesError, TakesVariant;
  }

  lemma NothingReserved(variants: seq<Variant>)
    ensures Reserved(variants, 0, {}, {})
  {}

  lemma RefusesVariant(error: MacroError, variants: seq<Variant>, i: nat, mode: Mode, isIdent: string -> bool)
    requires i < |variants| && Faulty(error, variants[i], mode) && !error.DuplicateWireKind? && !error.MalformedDisplay?
    ensures Refuses(error, variants, mode, isIdent)
  {
    hide Faulty;
  }

  lemma RefusesClash(variants: seq<Variant>, n: nat, mode: Mode, isIdent: string -> bool)
    requires n < |variants| && (forall i | 0 <= i <= n :: AttrsOk(variants[i])) && ClashesBefore(variants, n)
    ensures
      var h := HeaderOf(variants[n]);
      Refuses(DuplicateWireKind(h.code, h.kind), variants, mode, isIdent)
  {
    hide HeaderOf, AttrsOk, Clash;
  }

  lemma RefusesDisplay(variants: seq<Variant>, i: nat, mode: Mode, isIdent: string -> bool)
    requires i < |variants| && mode.SelfContained? && variants[i].error.Message?
    requires ErrorFormat.Arm(DisplayShape(variants[i]), variants[i].error.message, variants[i].error.args, isIdent).Err?
    ensures Refuses(
              MalformedDisplay(ErrorFormat.Arm(DisplayShape(variants[i]), variants[i].error.message, variants[i].error.args, isIdent).error),
              variants, mode, isIdent)
  {
    hide ErrorFormat.Arm;
  }

  /** The loop of `expand_service_error`: it accepts exactly the enums described by `Accepted`. */
  method Expand(variants: seq<Variant>, mode: Mode, isIdent: string -> bool)
    returns (r: Result<seq<(EncodeArm, DecodeArm)>, MacroError>)
    ensures r.Ok? <==> Accepted(variants, |variants|, mode, isIdent)
    ensures r.Ok? ==> |r.value| == |variants| && Generated(variants, r.value)
    ensures r.Err? ==> Refuses(r.error, variants, mode, isIdent)
  {
    hide HeaderOf, TakesFields, TakesError, Describes, Arms, Faulty, Refuses, KeysOf, Clash, ClashesBefore, DisplayShape, ErrorFormat.Arm;
    var arms, reserved, concrete := [], {}, {};
    NothingReserved(variants);
    for i := 0 to |variants|
      invariant Accepted(variants, i, mode, isIdent)
      invariant |arms| == i && Generated(variants, arms)
      invariant Reserved(variants, i, reserved, concrete)
    {
      var v := variants[i];
      var read := ReadVariant(v, mode);
      if read.Err? {
        Refused(variants, i, mode, isIdent);
        RefusesVariant(read.error, variants, i, mode, isIdent);
        return Err(read.error);
      }
      var (meta, h) := read.value;
      AcceptedNext(variants, i, mode, isIdent);
      ClashIsFound(variants, i, reserved, concrete);
      KeysGrow(variants, i, reserved, true);
      KeysGrow(variants, i, concrete, false);
      if Generic(h) {
        if KeyOf(h) in concrete {
          RefusedStaysRefused(variants, i + 1, mode, isIdent);
          RefusesClash(variants, i, mode, isIdent);
          return Err(DuplicateWireKind(h.code, h.kind));
        }
        reserved := reserved + {KeyOf(h)};
      } else {
        if KeyOf(h) in reserved || KeyOf(h) in concrete {
          RefusedStaysRefused(variants, i + 1, mode, isIdent);
          RefusesClash(variants, i, mode, isIdent);
          return Err(DuplicateWireKind(h.code, h.kind));
        }
        concrete := concrete + {KeyOf(h)};
      }
      if v.error.Message? && mode.SelfContained? {
        var display := ErrorFormat.DisplayArm(DisplayShape(v), v.error.message, v.error.args, isIdent);
        DisplayDecides(v, mode, isIdent);
        if display.Err? {
          RefusedStaysRefused(variants, i + 1, mode, isIdent);
          RefusesDisplay(variants, i, mode, isIdent);
          return Err(MalformedDisplay(display.error));
        }
      }
      DisplayDecides(v, mode, isIdent);
      arms := arms + [Arms(v, i, meta)];
      assert ArmsOf(v, i, arms[i]);
    }
    return Ok(arms);
  }

  lemma Refused(variants: seq<Variant>, n: nat, mode: Mode, isIdent: string -> bool)
    requires n < |variants|
    requires !(TakesFields(variants[n], mode, IsTransparent(variants[n])) && AttrsOk(variants[n]) &&
               (mode.SelfContained? ==> variants[n].error.Transparent? || variants[n].error.Message?))
    ensures !Accepted(variants, |variants|, mode, isIdent)
  {
    hide HeaderOf, AttrsOk, Clash, TakesFields;
  }

  lemma DisplayDecides(v: Variant, mode: Mode, isIdent: string -> bool)
    requires mode.SelfContained? ==> v.error.Transparent? || v.error.Message?
    ensures TakesError(v, mode, isIdent) <==>
            !(mode.SelfContained? && v.error.Message?
              && ErrorFormat.Arm(DisplayShape(v), v.error.message, v.error.args, isIdent).Err?)
  {}

  /** Acceptance does not depend on the order of the variants: exchanging any two changes nothing. */
  lemma {:induction false} OrderDoesNotMatter(variants: seq<Variant>, a: nat, b: nat, mode: Mode, isIdent: string -> bool)
    requires a < b < |variants| && Accepted(variants, |variants|, mode, isIdent)
    ensures Accepted(variants[a := variants[b]][b := variants[a]], |variants|, mode, isIdent)
  {
    hide HeaderOf, AttrsOk, TakesFields, TakesError;
    var swapped := variants[a := variants[b]][b := variants[a]];
    forall i | 0 <= i < |swapped|
      ensures TakesVariant(swapped[i], mode, isIdent)
    {
      assert swapped[i] == variants[if i == a then b else if i == b then a else i];
    }
    forall i, j | 0 <= i < j < |swapped|
      ensures !Clash(HeaderOf(swapped[i]), HeaderOf(swapped[j]))
    {
      var p, q := if i == a then b else if i == b then a else i, if j == a then b else if j == b then a else j;
      assert swapped[i] == variants[p] && swapped[j] == variants[q] && p != q;
      assert !Clash(HeaderOf(variants[if p < q then p else q]), HeaderOf(variants[if p < q then q else p]));
    }
  }

  // ----- values, and the generated encoder and decoder

  datatype Json = JNull | JString(s: string) | JArray(elems: seq<Json>) | JOther(id: nat)

  /** A field's value: a `String`, or a value of some other type. */
  datatype Value<V> = Str(s: string) | Val(v: V)

  /** The serde codecs of the other types; a type's values are those that `typed` says. */
  datatype Codec<!V> = Codec(typed: (nat, V) -> bool, enc: (nat, V) -> Option<Json>, dec: (nat, Json) -> Option<V>)

  /** Every value of a type is encoded, and decoding gives it back. */
  ghost predicate Lawful<V(!new)>(codec: Codec<V>) {
    forall ty: nat, v: V | codec.typed(ty, v) ::
      codec.enc(ty, v).Some? && codec.dec(ty, codec.enc(ty, v).value) == Some(v)
  }

  predicate HasType<V>(ty: Type, value: Value<V>, codec: Codec<V>) {
    match ty
    case StringType => value.Str?
    case OtherType(id) => value.Val? && codec.typed(id, value.v)
  }

  function ToJson<V>(ty: Type, value: Value<V>, codec: Codec<V>): Option<Json> {
    match value
    case Str(s) => Some(JString(s))
    case Val(v) => if ty.OtherType? then codec.enc(ty.id, v) else None
  }

  function FromJson<V>(ty: Type, json: Json, codec: Codec<V>): Option<Value<V>> {
    match ty
    case StringType => if json.JString? then Some(Str(json.s)) else None
    case OtherType(id) => if codec.dec(id, json).Some? then Some(Val(codec.dec(id, json).value)) else None
  }

  /** An error value: which variant, and its fields. */
  datatype Error<V> = Error(variant: nat, fields: seq<Value<V>>)

  datatype Response = Response(code: nat, kind: string, message: string, requestId: string, details: Option<Json>)

  datatype Match<V> = Typed(error: Error<V>) | Untyped(response: Response)

  /** Serializing the chosen fields one by one; any failure gives up on all of them. */
  function Serialize<V>(wire: seq<nat>, types: seq<Type>, fields: seq<Value<V>>, codec: Codec<V>): Option<seq<Json>>
    requires forall i | 0 <= i < |wire| :: wire[i] < |fields| && wire[i] < |types|
  {
    if wire == [] then Some([])
    else
      var head := ToJson(types[wire[0]], fields[wire[0]], codec);
      var tail := Serialize(wire[1..], types, fields, codec);
      if head.None? || tail.None? then None else Some([head.value] + tail.value)
  }

  function Deserialize<V>(types: seq<Type>, elems: seq<Json>, codec: Codec<V>): Option<seq<Value<V>>> {
    if types == [] || elems == [] then if types == [] && elems == [] then Some([]) else None
    else
      var head := FromJson(types[0], elems[0], codec);
      var tail := Deserialize(types[1..], elems[1..], codec);
      if head.None? || tail.None? then None else Some([head.value] + tail.value)
  }

  /** `from_value` at a tuple type; the empty tuple is read from null. */
  function DeserializeTuple<V>(types: seq<Type>, json: Json, codec: Codec<V>): Option<seq<Value<V>>> {
    if types == [] then if json.JNull? then Some([]) else None
    else if json.JArray? then Deserialize(types, json.elems, codec) else None
  }

  ghost predicate WellTyped<V>(error: Error<V>, variants: seq<Variant>, codec: Codec<V>) {
    && error.variant < |variants|
    && var fields := FieldsOf(variants[error.variant]);
       && |error.fields| == |fields|
       && forall k | 0 <= k < |fields| :: HasType(fields[k].ty, error.fields[k], codec)
  }

  const INTERNAL_MESSAGE := "an internal error occurred"

  function EncodeDetails<V>(rule: DetailsRule, types: seq<Type>, fields: seq<Value<V>>, codec: Codec<V>): Option<Json>
    requires |types| == |fields|
    requires rule.TupleOf? ==> forall i | 0 <= i < |rule.wire| :: rule.wire[i] < |fields|
  {
    match rule
    case NoDetails => None
    case RawString => if |fields| == 1 && fields[0].Str? then Some(JString(fields[0].s)) else None
    case TupleOf(wire) =>
      var elems := Serialize(wire, types, fields, codec);
      if elems.Some? then Some(JArray(elems.value)) else None
  }

  /** `into_nats_error`, for the arm of the error's variant; `text` is what the error displays. */
  function Encode<V>(arm: EncodeArm, types: seq<Type>, error: Error<V>, text: string, requestId: string, codec: Codec<V>): Response
    requires |types| == |error.fields|
    requires arm.details.TupleOf? ==> forall i | 0 <= i < |arm.details.wire| :: arm.details.wire[i] < |error.fields|
  {
    Response(arm.header.code, arm.header.kind, if arm.header.internal then INTERNAL_MESSAGE else text, requestId,
             EncodeDetails(arm.details, types, error.fields, codec))
  }

  /** What an arm of `from_nats_error_response` makes of a response that matches it. */
  function ApplyArm<V>(arm: DecodeArm, response: Response, codec: Codec<V>): Match<V>
    requires arm.DecodeArm?
  {
    match arm.rule
    case ToUntyped => Untyped(response)
    case ToUnit => Typed(Error(arm.variant, []))
    case ToText =>
      var text := match response.details { case Some(JString(s)) => s case _ => response.message };
      Typed(Error(arm.variant, [Str(text)]))
    case ToTuple(types) =>
      var fields := if response.details.Some? then DeserializeTuple(types, response.details.value, codec) else None;
      if fields.Some? then Typed(Error(arm.variant, fields.value)) else Untyped(response)
  }

  predicate Catches(arm: DecodeArm, response: Response) {
    arm.DecodeArm? && arm.code == response.code && arm.kind == response.kind
  }

  /** `from_nats_error_response`: the first arm that matches decides. */
  function Decode<V>(arms: seq<(EncodeArm, DecodeArm)>, response: Response, codec: Codec<V>): Match<V> {
    if arms == [] then Untyped(response)
    else if Catches(arms[0].1, response) then ApplyArm(arms[0].1, response, codec)
    else Decode(arms[1..], response, codec)
  }

  // ----- what the encoder and decoder do together

  /** Some field of the variant stays off the wire. */
  ghost predicate Skips(v: Variant) {
    || (v.details == [Skip] && FieldsOf(v) != [])
    || exists k | 0 <= k < |FieldsOf(v)| :: Hidden(v, k)
  }

  predicate Hidden(v: Variant, k: nat)
    requires k < |FieldsOf(v)|
  {
    var f := FieldsOf(v)[k];
    || f.from != Absent || f.source != Absent || f.backtrace != Absent || f.details == [Skip]
    || (v.fields.Named? && f.name == "source")
    || (v.error.Transparent? && |FieldsOf(v)| == 1)
  }

  /** The variants whose errors survive the wire: not internal, with nothing skipped, and a unit or with at
      least one field. */
  ghost predicate Survives(v: Variant)
    requires AttrsOk(v)
  {
    !HeaderOf(v).internal && !Skips(v) && (v.fields.Unit? || FieldsOf(v) != [])
  }

  lemma SkipExactly(attrs: seq<DetailsAttr>)
    ensures DetailsSkip(attrs) == Ok(true) <==> attrs == [Skip]
    ensures DetailsSkip(attrs) == Ok(false) <==> attrs == []
  {}

  lemma SkipsIsHasSkipped(v: Variant, meta: FieldMeta)
    requires Describes(meta, v, IsTransparent(v))
    ensures HasSkipped(meta) <==> Skips(v)
  {
    forall k | 0 <= k < |FieldsOf(v)|
      ensures
        var role := RoleOf(v, k, IsTransparent(v));
        Hidden(v, k) <==> role.source || role.from || role.backtrace || role.detailsSkip
    {}
    hide DetailsSkip, Hidden, RoleOf;
    SkipExactly(v.details);
    if HasSkipped(meta) && !(meta.detailsSkipAll && meta.roles != []) {
      var k :| 0 <= k < |meta.roles| &&
               (meta.roles[k].source || meta.roles[k].from || meta.roles[k].backtrace || meta.roles[k].detailsSkip);
      assert Hidden(v, k);
    }
    if Skips(v) && !(v.details == [Skip] && FieldsOf(v) != []) {
      var k :| 0 <= k < |FieldsOf(v)| && Hidden(v, k);
      assert meta.roles[k] == RoleOf(v, k, IsTransparent(v));
    }
  }

  function From(k: nat, n: nat): (wire: seq<nat>)
    requires k <= n
    ensures |wire| == n - k && forall i | 0 <= i < n - k :: wire[i] == k + i
  {
    seq(n - k, i => k + i)
  }

  lemma {:induction false} WireOfAll(meta: FieldMeta, k: nat)
    requires k <= |meta.roles| && !HasSkipped(meta)
    ensures WireFrom(meta, k) == From(k, |meta.roles|)
    decreases |meta.roles| - k
  {
    if k < |meta.roles| {
      WireOfAll(meta, k + 1);
    }
  }

  lemma ValueRoundTrip<V(!new)>(ty: Type, value: Value<V>, codec: Codec<V>)
    requires Lawful(codec) && HasType(ty, value, codec)
    ensures ToJson(ty, value, codec).Some? && FromJson(ty, ToJson(ty, value, codec).value, codec) == Some(value)
  {}

  lemma {:induction false} SerializeRoundTrip<V(!new)>(k: nat, types: seq<Type>, fields: seq<Value<V>>, codec: Codec<V>)
    requires Lawful(codec) && k <= |types| == |fields|
    requires forall i | 0 <= i < |types| :: HasType(types[i], fields[i], codec)
    ensures
      var elems := Serialize(From(k, |types|), types, fields, codec);
      && elems.Some? && |elems.value| == |types| - k
      && Deserialize(types[k..], elems.value, codec) == Some(fields[k..])
    decreases |types| - k
  {
    hide Lawful, HasType, ToJson, FromJson;
    if k < |types| {
      SerializeRoundTrip(k + 1, types, fields, codec);
      ValueRoundTrip(types[k], fields[k], codec);
      assert From(k, |types|)[1..] == From(k + 1, |types|);
      DropOne(types, k);
      DropOne(fields, k);
      var head := ToJson(types[k], fields[k], codec).value;
      var tail := Serialize(From(k + 1, |types|), types, fields, codec).value;
      assert Serialize(From(k, |types|), types, fields, codec) == Some([head] + tail);
      assert ([head] + tail)[1..] == tail;
    }
  }

  /** Only the variant's own arm, if any, can match its responses. */
  lemma {:induction false} OnlyOwnArm(
      variants: seq<Variant>, arms: seq<(EncodeArm, DecodeArm)>, i: nat, j: nat, mode: Mode, isIdent: string -> bool, response: Response)
    requires Accepted(variants, |variants|, mode, isIdent) && Generated(variants, arms)
    requires i < |arms| && j < |arms| && i != j
    requires KeyOf(arms[i].0.header) == (response.code, response.kind)
    ensures !Catches(arms[j].1, response)
  {
    assert arms[i].0.header == HeaderOf(variants[i]);
    assert !Clash(HeaderOf(variants[if i < j then i else j]), HeaderOf(variants[if i < j then j else i]));
  }

  lemma {:induction false} DecodeFindsArm<V>(arms: seq<(EncodeArm, DecodeArm)>, i: nat, response: Response, codec: Codec<V>)
    requires i < |arms| && forall j | 0 <= j < |arms| && j != i :: !Catches(arms[j].1, response)
    ensures Decode(arms, response, codec) ==
            if Catches(arms[i].1, response) then ApplyArm(arms[i].1, response, codec) else Untyped(response)
  {
    if i > 0 {
      assert arms[1..][i - 1] == arms[i];
      DecodeFindsArm(arms[1..], i - 1, response, codec);
    } else {
      NothingCatches(arms[1..], response, codec);
    }
  }

  lemma {:induction false} NothingCatches<V>(arms: seq<(EncodeArm, DecodeArm)>, response: Response, codec: Codec<V>)
    requires forall j | 0 <= j < |arms| :: !Catches(arms[j].1, response)
    ensures Decode(arms, response, codec) == Untyped(response)
  {
    if arms != [] {
      NothingCatches(arms[1..], response, codec);
    }
  }

  ghost predicate Fits(arm: EncodeArm, n: nat) {
    arm.details.TupleOf? ==> forall i | 0 <= i < |arm.details.wire| :: arm.details.wire[i] < n
  }

  lemma ArmsFit(v: Variant, index: nat, arms: (EncodeArm, DecodeArm))
    requires AttrsOk(v) && ArmsOf(v, index, arms)
    ensures Fits(arms.0, |FieldsOf(v)|)
  {
    hide HeaderOf, HasSkipped, WireFrom, RoleOf;
    var meta :| Describes(meta, v, IsTransparent(v)) && arms == Arms(v, index, meta);
  }

  lemma TupleRoundTrip<V(!new)>(types: seq<Type>, fields: seq<Value<V>>, codec: Codec<V>)
    requires Lawful(codec) && |types| == |fields| >= 1
    requires forall i | 0 <= i < |types| :: HasType(types[i], fields[i], codec)
    ensures
      var details := EncodeDetails(TupleOf(From(0, |types|)), types, fields, codec);
      details.Some? && DeserializeTuple(types, details.value, codec) == Some(fields)
  {
    hide Lawful, HasType;
    SerializeRoundTrip(0, types, fields, codec);
    assert types[0..] == types && fields[0..] == fields;
  }

  /** The arms of a variant whose errors survive undo each other. */
  lemma {:induction false} SurvivorDecodes<V(!new)>(
      v: Variant, index: nat, arms: (EncodeArm, DecodeArm), error: Error<V>, text: string, requestId: string, codec: Codec<V>)
    requires AttrsOk(v) && ArmsOf(v, index, arms) && Survives(v) && Lawful(codec)
    requires error.variant == index && |error.fields| == |FieldsOf(v)|
    requires forall k | 0 <= k < |error.fields| :: HasType(FieldsOf(v)[k].ty, error.fields[k], codec)
    requires Fits(arms.0, |FieldsOf(v)|)
    ensures
      var response := Encode(arms.0, TypesOf(FieldsOf(v)), error, text, requestId, codec);
      Catches(arms.1, response) && ApplyArm(arms.1, response, codec) == Typed(error)
  {
    hide HeaderOf, HasSkipped, Skips, Lawful, DeserializeTuple, Serialize, RoleOf, DetailsSkip;
    var meta :| Describes(meta, v, IsTransparent(v)) && arms == Arms(v, index, meta);
    SkipsIsHasSkipped(v, meta);
    WireOfAll(meta, 0);
    var fields := FieldsOf(v);
    if fields != [] {
      TupleRoundTrip(TypesOf(fields), error.fields, codec);
      assert HasType(fields[0].ty, error.fields[0], codec);
    }
  }

  /** The arms of any other variant leave the response as it is. */
  lemma {:induction false} OtherStaysUntyped<V>(
      v: Variant, index: nat, arms: (EncodeArm, DecodeArm), error: Error<V>, text: string, requestId: string, codec: Codec<V>)
    requires AttrsOk(v) && ArmsOf(v, index, arms) && !Survives(v) && |error.fields| == |FieldsOf(v)|
    requires Fits(arms.0, |FieldsOf(v)|)
    ensures
      var response := Encode(arms.0, TypesOf(FieldsOf(v)), error, text, requestId, codec);
      Catches(arms.1, response) ==> ApplyArm(arms.1, response, codec) == Untyped(response)
  {
    hide HeaderOf, Skips, RoleOf;
    var meta :| Describes(meta, v, IsTransparent(v)) && arms == Arms(v, index, meta);
    SkipsIsHasSkipped(v, meta);
    if |WireIndices(meta)| == 1 && |FieldsOf(v)| == 1 {
      OneOnTheWire(meta);
    }
  }

  lemma OneOnTheWire(meta: FieldMeta)
    requires |meta.roles| == 1 && |WireIndices(meta)| == 1
    ensures !HasSkipped(meta)
  {
    assert WireFrom(meta, 1) == [];
  }

  /** Over every enum the macro accepts and every well-typed error: decoding the encoded error gives the
      same error back when its variant is not internal, skips no field and is a unit or has fields; in every
      other case the response comes back as it is. No other variant's arm can interfere. */
  lemma {:induction false} EncodedErrorsDecode<V(!new)>(
      variants: seq<Variant>, arms: seq<(EncodeArm, DecodeArm)>, mode: Mode, isIdent: string -> bool,
      error: Error<V>, text: string, requestId: string, codec: Codec<V>)
    requires Accepted(variants, |variants|, mode, isIdent) && Generated(variants, arms) && |arms| == |variants|
    requires Lawful(codec) && WellTyped(error, variants, codec)
    ensures
      var v, arm := variants[error.variant], arms[error.variant].0;
      && AttrsOk(v) && Fits(arm, |error.fields|)
      && var response := Encode(arm, TypesOf(FieldsOf(v)), error, text, requestId, codec);
         Decode(arms, response, codec) == if Survives(v) then Typed(error) else Untyped(response)
  {
    hide Accepted, TakesVariant, HeaderOf, Survives, Lawful, ApplyArm, Catches, ArmsOf, EncodeDetails;
    var i := error.variant;
    var v := variants[i];
    ArmsFit(v, i, arms[i]);
    var response := Encode(arms[i].0, TypesOf(FieldsOf(v)), error, text, requestId, codec);
    forall j | 0 <= j < |arms| && j != i
      ensures !Catches(arms[j].1, response)
    {
      OnlyOwnArm(variants, arms, i, j, mode, isIdent, response);
    }
    DecodeFindsArm(arms, i, response, codec);
    if Survives(v) {
      SurvivorDecodes(v, i, arms[i], error, text, requestId, codec);
    } else {
      OtherStaysUntyped(v, i, arms[i], error, text, requestId, codec);
    }
  }

  /** The fields that stay on the wire, in order: all the visible ones, or none if the variant skips its
      details. */
  ghost predicate Shown(v: Variant, wire: seq<nat>) {
    if v.details == [Skip] then wire == [] else ShownFrom(v, 0, wire)
  }

  lemma HiddenIsInRoles(v: Variant, k: nat)
    requires k < |FieldsOf(v)|
    ensures
      var role := RoleOf(v, k, IsTransparent(v));
      Hidden(v, k) <==> role.source || role.from || role.backtrace || role.detailsSkip
  {
    hide DetailsSkip;
    SkipExactly(FieldsOf(v)[k].details);
  }

  /** These are the visible fields from field `k` on, in order. */
  ghost predicate ShownFrom(v: Variant, k: nat, wire: seq<nat>) {
    && (forall i | 0 <= i < |wire| :: k <= wire[i] < |FieldsOf(v)| && !Hidden(v, wire[i]))
    && (forall i, j | 0 <= i < j < |wire| :: wire[i] < wire[j])
    && (forall n: nat | k <= n < |FieldsOf(v)| && !Hidden(v, n) :: n in wire)
  }

  lemma ShownWith(v: Variant, k: nat, rest: seq<nat>)
    requires k < |FieldsOf(v)| && !Hidden(v, k) && ShownFrom(v, k + 1, rest)
    ensures ShownFrom(v, k, [k] + rest)
  {
    hide Hidden;
    var wire := [k] + rest;
    assert wire[0] == k && forall n | n in rest :: n in wire;
    assert forall i | 0 < i < |wire| :: wire[i] == rest[i - 1];
  }

  lemma ShownWithout(v: Variant, k: nat, rest: seq<nat>)
    requires k < |FieldsOf(v)| && Hidden(v, k) && ShownFrom(v, k + 1, rest)
    ensures ShownFrom(v, k, rest)
  {
    hide Hidden;
  }

  lemma {:induction false} WireIsShown(v: Variant, meta: FieldMeta, k: nat)
    requires Describes(meta, v, IsTransparent(v)) && k <= |meta.roles|
    ensures if meta.detailsSkipAll then WireFrom(meta, k) == [] else ShownFrom(v, k, WireFrom(meta, k))
    decreases |meta.roles| - k
  {
    hide DetailsSkip, Hidden, RoleOf, ShownFrom;
    if k < |meta.roles| {
      WireIsShown(v, meta, k + 1);
      HiddenIsInRoles(v, k);
      var rest := WireFrom(meta, k + 1);
      if meta.detailsSkipAll {
        assert [] + rest == [];
      } else if Hidden(v, k) {
        ShownWithout(v, k, rest);
        assert [] + rest == rest;
      } else {
        ShownWith(v, k, rest);
      }
    } else {
      NothingIsShown(v, k);
    }
  }

  lemma NothingIsShown(v: Variant, k: nat)
    requires k >= |FieldsOf(v)|
    ensures ShownFrom(v, k, [])
  {}

  lemma {:induction false} Ascends(wire: seq<nat>, i: nat)
    requires i < |wire| && forall j, k | 0 <= j < k < |wire| :: wire[j] < wire[k]
    ensures wire[i] >= i
  {
    if i > 0 {
      Ascends(wire, i - 1);
    }
  }

  lemma {:induction false} SerializesEach<V(!new)>(wire: seq<nat>, types: seq<Type>, fields: seq<Value<V>>, codec: Codec<V>)
    requires Lawful(codec) && |types| == |fields| && forall i | 0 <= i < |wire| :: wire[i] < |fields|
    requires forall i | 0 <= i < |types| :: HasType(types[i], fields[i], codec)
    ensures
      var elems := Serialize(wire, types, fields, codec);
      && elems.Some? && |elems.value| == |wire|
      && forall i | 0 <= i < |wire| :: ToJson(types[wire[i]], fields[wire[i]], codec) == Some(elems.value[i])
  {
    hide Lawful, HasType, ToJson, FromJson;
    if wire != [] {
      SerializesEach(wire[1..], types, fields, codec);
      ValueRoundTrip(types[wire[0]], fields[wire[0]], codec);
    }
  }

  /** What the response to an error carries besides its code and kind. Internal errors and units carry no details
      and internal errors no text of their own; the one visible `String` of a variant is carried as it is; every
      other variant carries exactly its visible fields, in order, and nothing if there are none. */
  lemma {:induction false} ResponseCarries<V(!new)>(
      v: Variant, index: nat, arms: (EncodeArm, DecodeArm), error: Error<V>, text: string, requestId: string, codec: Codec<V>)
    returns (wire: seq<nat>)
    requires AttrsOk(v) && ArmsOf(v, index, arms) && Lawful(codec)
    requires |error.fields| == |FieldsOf(v)| && Fits(arms.0, |FieldsOf(v)|)
    requires forall k | 0 <= k < |error.fields| :: HasType(FieldsOf(v)[k].ty, error.fields[k], codec)
    ensures Shown(v, wire)
    ensures
      var response := Encode(arms.0, TypesOf(FieldsOf(v)), error, text, requestId, codec);
      && response.requestId == requestId && response.code == HeaderOf(v).code && response.kind == HeaderOf(v).kind
      && response.message == (if HeaderOf(v).internal then "an internal error occurred" else text)
      && if HeaderOf(v).internal || v.fields == Unit || wire == [] then response.details == None
         else if v.fields.Unnamed? && |FieldsOf(v)| == 1 && FieldsOf(v)[0].ty == StringType then
           error.fields[0].Str? && response.details == Some(JString(error.fields[0].s))
         else
           && response.details.Some? && response.details.value.JArray? && |response.details.value.elems| == |wire|
           && forall i | 0 <= i < |wire| ::
                ToJson(FieldsOf(v)[wire[i]].ty, error.fields[wire[i]], codec) == Some(response.details.value.elems[i])
  {
    hide HeaderOf, HasSkipped, Lawful, Serialize, RoleOf, DetailsSkip, ToJson, WireFrom, Hidden;
    var meta :| Describes(meta, v, IsTransparent(v)) && arms == Arms(v, index, meta);
    wire := WireIndices(meta);
    SkipExactly(v.details);
    WireIsShown(v, meta, 0);
    SerializesEach(wire, TypesOf(FieldsOf(v)), error.fields, codec);
    if |FieldsOf(v)| == 1 {
      assert HasType(FieldsOf(v)[0].ty, error.fields[0], codec);
      if wire != [] {
        Ascends(wire, |wire| - 1);
      }
    }
  }

  /** Which responses the arm of a variant matches: those with its code and kind, except that an internal variant
      under the common kind has no arm. */
  lemma {:induction false} CatchesExactly(v: Variant, index: nat, arms: (EncodeArm, DecodeArm), response: Response)
    requires AttrsOk(v) && ArmsOf(v, index, arms)
    ensures Catches(arms.1, response) <==>
            && response.code == HeaderOf(v).code && response.kind == HeaderOf(v).kind
            && !(HeaderOf(v).internal && HeaderOf(v).kind == "INTERNAL_ERROR")
  {
    hide HeaderOf, HasSkipped, RoleOf, WireFrom;
    var meta :| Describes(meta, v, IsTransparent(v)) && arms == Arms(v, index, meta);
  }

  /** Values are read from a list exactly if it has as many elements as there are types, each of which can be read
      at its type; they are then what each was read as. */
  lemma {:induction false} DeserializesExactly<V(!new)>(types: seq<Type>, elems: seq<Json>, values: seq<Value<V>>, codec: Codec<V>)
    ensures Deserialize(types, elems, codec) == Some(values) <==>
            |types| == |elems| == |values| && forall i | 0 <= i < |types| :: FromJson(types[i], elems[i], codec) == Some(values[i])
  {
    hide FromJson;
    if types != [] && elems != [] {
      if values != [] {
        DeserializesExactly(types[1..], elems[1..], values[1..], codec);
        assert values == [values[0]] + values[1..];
        assert forall i | 0 <= i < |types| - 1 && i < |elems| - 1 && i < |values| - 1 ::
                 types[1..][i] == types[i + 1] && elems[1..][i] == elems[i + 1] && values[1..][i] == values[i + 1];
        if |types| == |elems| == |values| && forall i | 0 <= i < |types| :: FromJson(types[i], elems[i], codec) == Some(values[i]) {
          assert FromJson(types[0], elems[0], codec) == Some(values[0]);
        }
      }
    }
  }

  /** Values are written exactly if each of the chosen ones can be. */
  lemma {:induction false} SerializesExactly<V(!new)>(wire: seq<nat>, types: seq<Type>, fields: seq<Value<V>>, codec: Codec<V>, elems: seq<Json>)
    requires forall i | 0 <= i < |wire| :: wire[i] < |fields| && wire[i] < |types|
    ensures Serialize(wire, types, fields, codec) == Some(elems) <==>
            |elems| == |wire| && forall i | 0 <= i < |wire| :: ToJson(types[wire[i]], fields[wire[i]], codec) == Some(elems[i])
  {
    hide ToJson;
    if wire != [] && elems != [] {
      SerializesExactly(wire[1..], types, fields, codec, elems[1..]);
      assert elems == [elems[0]] + elems[1..];
      if |elems| == |wire| && forall i | 0 <= i < |wire| :: ToJson(types[wire[i]], fields[wire[i]], codec) == Some(elems[i]) {
        assert ToJson(types[wire[0]], fields[wire[0]], codec) == Some(elems[0]);
      }
    }
  }

  /** What the decoder makes of any response with a variant's code and kind, whoever sent it. A variant that is
      internal or hides a field leaves it as it is; a unit needs no details; the one `String` of a variant is the
      details if these are text, and the message if not; every other variant is recognised exactly if the details
      are an array that its fields can be read from, or null if it has none. */
  lemma {:induction false} AnyResponseDecodes<V(!new)>(
      v: Variant, index: nat, arms: (EncodeArm, DecodeArm), response: Response, codec: Codec<V>)
    requires AttrsOk(v) && ArmsOf(v, index, arms) && Catches(arms.1, response)
    ensures response.code == HeaderOf(v).code && response.kind == HeaderOf(v).kind
    ensures
      var result := ApplyArm(arms.1, response, codec);
      var fields := FieldsOf(v);
      if HeaderOf(v).internal then result == Untyped(response)
      else if v.fields == Unit then result == Typed(Error(index, []))
      else if Skips(v) then result == Untyped(response)
      else if v.fields.Unnamed? && |fields| == 1 && fields[0].ty == StringType then
        result == Typed(Error(index, [Str(
          if response.details.Some? && response.details.value.JString? then response.details.value.s else response.message)]))
      else
        match response.details
        case Some(JArray(elems)) =>
          if fields == [] then result == Untyped(response)
          else
            (match Deserialize(TypesOf(fields), elems, codec)
             case Some(values) => result == Typed(Error(index, values))
             case None => result == Untyped(response))
        case Some(JNull) => result == if fields == [] then Typed(Error(index, [])) else Untyped(response)
        case _ => result == Untyped(response)
  {
    hide HeaderOf, HasSkipped, Skips, Deserialize, RoleOf, DetailsSkip, WireFrom;
    var meta :| Describes(meta, v, IsTransparent(v)) && arms == Arms(v, index, meta);
    SkipsIsHasSkipped(v, meta);
    if !HasSkipped(meta) {
      WireOfAll(meta, 0);
    } else if |WireIndices(meta)| == 1 && |FieldsOf(v)| == 1 {
      OneOnTheWire(meta);
    }
  }

  /** The response to an internal error shows nothing of the error: any two errors of the variant give the
      same response, whatever their fields and text. */
  lemma {:induction false} InternalErrorsLookAlike<V>(
      v: Variant, index: nat, arms: (EncodeArm, DecodeArm), a: Error<V>, b: Error<V>,
      aText: string, bText: string, requestId: string, codec: Codec<V>)
    requires AttrsOk(v) && ArmsOf(v, index, arms) && HeaderOf(v).internal && Fits(arms.0, |FieldsOf(v)|)
    requires |a.fields| == |FieldsOf(v)| && |b.fields| == |FieldsOf(v)|
    ensures Encode(arms.0, TypesOf(FieldsOf(v)), a, aText, requestId, codec) ==
            Encode(arms.0, TypesOf(FieldsOf(v)), b, bText, requestId, codec)
  {
    var meta :| Describes(meta, v, IsTransparent(v)) && arms == Arms(v, index, meta);
  }
}
