/** Error messages of `#[service_error]` (nats-micro-macros/src/service_error/mod.rs): a message whose
    placeholders name, number or imply a field is rewritten into a purely positional format string, and
    the arguments for its placeholders are computed. */
module ErrorFormat {
  import opened Text

  datatype Key = Implicit | Index(index: nat) | Name(name: string)

  datatype FormatError =
    | NestedBraces
    | UnterminatedPlaceholder
    | UnmatchedClosingBrace
    | UnsupportedPlaceholder(key: string)

  const USIZE_LIMIT: nat := 0x1_0000_0000_0000_0000

  // ----- the text between the braces of a placeholder

  /** `char::is_whitespace`: the characters with Unicode's White_Space property. */
  predicate IsWhitespace(c: char) {
    var n := c as int;
    || 0x09 <= n <= 0x0D || n == 0x20 || n == 0x85 || n == 0xA0 || n == 0x1680 || 0x2000 <= n <= 0x200A
    || n == 0x2028 || n == 0x2029 || n == 0x202F || n == 0x205F || n == 0x3000
  }

  function TrimStart(s: string): string {
    if s != [] && IsWhitespace(s[0]) then TrimStart(s[1..]) else s
  }

  function TrimEnd(s: string): string {
    if s != [] && IsWhitespace(s[|s| - 1]) then TrimEnd(s[..|s| - 1]) else s
  }

  function Trim(s: string): string {
    TrimEnd(TrimStart(s))
  }

  predicate IsDigit(c: char) {
    '0' <= c <= '9'
  }

  predicate AllDigits(s: string) {
    forall i | 0 <= i < |s| :: IsDigit(s[i])
  }

  function Value(digits: string): nat
    requires AllDigits(digits)
  {
    if digits == [] then 0
    else 10 * Value(digits[..|digits| - 1]) + (digits[|digits| - 1] as int - '0' as int)
  }

  /** `str::parse::<usize>`: decimal digits, after at most one plus sign. */
  function ParseUsize(s: string): Option<nat> {
    var digits := if s != [] && s[0] == '+' then s[1..] else s;
    if digits != [] && AllDigits(digits) && Value(digits) < USIZE_LIMIT then Some(Value(digits)) else None
  }

  function Decimal(n: nat): string {
    if n < 10 then ['0' + n as char] else Decimal(n / 10) + ['0' + (n % 10) as char]
  }

  /** An index written in decimal is read back as that index. */
  lemma {:induction false} DecimalRoundTrip(n: nat)
    ensures AllDigits(Decimal(n)) && Value(Decimal(n)) == n
    ensures Decimal(n) != [] && Decimal(n)[0] != '+'
    ensures n < USIZE_LIMIT ==> ParseUsize(Decimal(n)) == Some(n)
  {
    if n >= 10 {
      DecimalRoundTrip(n / 10);
      assert Decimal(n)[..|Decimal(n)| - 1] == Decimal(n / 10);
    } else {
      assert Decimal(n)[..0] == "";
    }
  }

  /** The position of the first colon, or the length. */
  function ColonAt(s: string): (i: nat)
    ensures i <= |s|
    ensures i < |s| ==> s[i] == ':'
    ensures forall j | 0 <= j < i :: s[j] != ':'
  {
    if s == [] || s[0] == ':' then 0 else 1 + ColonAt(s[1..])
  }

  /** `parse_placeholder_key`. What counts as an identifier is up to the Rust parser. */
  function ParseKey(inner: string, isIdent: string -> bool): Result<(Key, string), FormatError> {
    match KeyFrom(Trim(inner[..ColonAt(inner)]), isIdent)
    case Err(error) => Err(error)
    case Ok(key) => Ok((key, inner[ColonAt(inner)..]))
  }

  function KeyFrom(key: string, isIdent: string -> bool): Result<Key, FormatError> {
    if key == "" then Ok(Implicit)
    else if ParseUsize(key).Some? then Ok(Index(ParseUsize(key).value))
    else if isIdent(key) then Ok(Name(key))
    else Err(UnsupportedPlaceholder(key))
  }

  // ----- what the text of a placeholder means

  predicate Blank(s: string) {
    forall i | 0 <= i < |s| :: IsWhitespace(s[i])
  }

  predicate NoColon(s: string) {
    forall i | 0 <= i < |s| :: s[i] != ':'
  }

  /** Text that neither begins nor ends with whitespace. */
  predicate Tight(s: string) {
    s == "" || (!IsWhitespace(s[0]) && !IsWhitespace(s[|s| - 1]))
  }

  /** Digits, after at most one plus sign, of a number that fits. */
  ghost predicate Numeral(s: string, n: nat) {
    && n < USIZE_LIMIT
    && exists digits | digits != "" && AllDigits(digits) :: (s == digits || s == "+" + digits) && Value(digits) == n
  }

  /** The key a text stands for: none if it is empty, the number it is a numeral of, or a name. */
  ghost predicate Stands(text: string, key: Key, isIdent: string -> bool) {
    match key
    case Implicit => text == ""
    case Index(n) => Numeral(text, n)
    case Name(name) => text == name && name != "" && isIdent(name) && forall n :: !Numeral(name, n)
  }

  /** A placeholder is a key between whitespace, followed by a spec that is empty or begins with a colon. */
  ghost predicate Splits(inner: string, a: string, text: string, b: string, spec: string) {
    && inner == a + text + b + spec && Blank(a) && Blank(b) && Tight(text)
    && NoColon(a + text + b) && (spec == "" || spec[0] == ':')
  }

  ghost predicate Means(inner: string, key: Key, spec: string, isIdent: string -> bool) {
    exists a, text, b :: Splits(inner, a, text, b, spec) && Stands(text, key, isIdent)
  }

  lemma {:induction false} TrimStartDrops(a: string, s: string)
    requires Blank(a) && (s == "" || !IsWhitespace(s[0]))
    ensures TrimStart(a + s) == s
  {
    if a == "" {
      assert a + s == s;
    } else {
      assert (a + s)[1..] == a[1..] + s;
      TrimStartDrops(a[1..], s);
    }
  }

  lemma {:induction false} TrimEndDrops(s: string, b: string)
    requires Blank(b) && (s == "" || !IsWhitespace(s[|s| - 1]))
    ensures TrimEnd(s + b) == s
  {
    if b == "" {
      assert s + b == s;
    } else {
      assert (s + b)[..|s + b| - 1] == s + b[..|b| - 1];
      TrimEndDrops(s, b[..|b| - 1]);
    }
  }

  lemma {:induction false} TrimEndAll(b: string)
    requires Blank(b)
    ensures TrimEnd(b) == ""
  {
    assert "" + b == b;
    TrimEndDrops("", b);
  }

  lemma TrimDrops(a: string, text: string, b: string)
    requires Blank(a) && Blank(b) && Tight(text)
    ensures Trim(a + text + b) == text
  {
    if text == "" {
      assert Blank(a + b) && a + text + b == (a + b) + "";
      TrimStartDrops(a + b, "");
    } else {
      assert a + text + b == a + (text + b);
      TrimStartDrops(a, text + b);
      TrimEndDrops(text, b);
    }
  }

  lemma {:induction false} TrimStartSplits(s: string) returns (a: string)
    ensures s == a + TrimStart(s) && Blank(a)
    ensures TrimStart(s) == "" || !IsWhitespace(TrimStart(s)[0])
  {
    a := "";
    if s != "" && IsWhitespace(s[0]) {
      a := TrimStartSplits(s[1..]);
      a := [s[0]] + a;
    }
  }

  lemma {:induction false} TrimEndSplits(s: string) returns (b: string)
    ensures s == TrimEnd(s) + b && Blank(b)
    ensures TrimEnd(s) == "" || (!IsWhitespace(TrimEnd(s)[|TrimEnd(s)| - 1]) && TrimEnd(s)[0] == s[0])
  {
    b := "";
    if s != "" && IsWhitespace(s[|s| - 1]) {
      b := TrimEndSplits(s[..|s| - 1]);
      b := b + [s[|s| - 1]];
    }
  }

  lemma TrimSplits(s: string) returns (a: string, b: string)
    ensures s == a + Trim(s) + b && Blank(a) && Blank(b) && Tight(Trim(s))
  {
    a := TrimStartSplits(s);
    b := TrimEndSplits(TrimStart(s));
  }

  lemma {:induction false} ColonAtEnd(key: string, spec: string)
    requires NoColon(key) && (spec == "" || spec[0] == ':')
    ensures ColonAt(key + spec) == |key|
  {
    if key != "" {
      assert (key + spec)[1..] == key[1..] + spec;
      ColonAtEnd(key[1..], spec);
    } else {
      assert key + spec == spec;
    }
  }

  lemma PlusIsNoDigit(s: string)
    ensures s != "" && s[0] == '+' ==> !AllDigits(s)
  {
    if s != "" && s[0] == '+' {
      assert !IsDigit(s[0]);
    }
  }

  lemma ParsesNumeral(s: string, n: nat)
    ensures ParseUsize(s) == Some(n) <==> Numeral(s, n)
  {
    if ParseUsize(s) == Some(n) {
      var digits := if s[0] == '+' then s[1..] else s;
      assert s == digits || s == "+" + digits;
    }
    if Numeral(s, n) {
      var digits :| digits != "" && AllDigits(digits) && (s == digits || s == "+" + digits) && Value(digits) == n;
      PlusIsNoDigit(digits);
      if s != digits {
        assert s[1..] == digits;
      }
    }
  }

  lemma StandsExactly(text: string, key: Key, isIdent: string -> bool)
    ensures Stands(text, key, isIdent) <==> KeyFrom(text, isIdent) == Ok(key)
  {
    hide Numeral, ParseUsize;
    match key
    case Implicit =>
    case Index(n) =>
      ParsesNumeral(text, n);
      EmptyIsNoNumeral(n);
    case Name(name) =>
      forall n: nat
        ensures ParseUsize(name) == Some(n) <==> Numeral(name, n)
      {
        ParsesNumeral(name, n);
      }
  }

  lemma EmptyIsNoNumeral(n: nat)
    ensures !Numeral("", n) && ParseUsize("") == None
  {}

  /** What a placeholder's text means, and that it means nothing else: `ParseKey` reads exactly the meanings of
      the text. */
  lemma ParsesExactlyWhatItMeans(inner: string, key: Key, spec: string, isIdent: string -> bool)
    ensures ParseKey(inner, isIdent) == Ok((key, spec)) <==> Means(inner, key, spec, isIdent)
  {
    hide Stands, Trim, KeyFrom;
    var raw := inner[..ColonAt(inner)];
    if ParseKey(inner, isIdent) == Ok((key, spec)) {
      var a, b := TrimSplits(raw);
      StandsExactly(Trim(raw), key, isIdent);
      assert inner == raw + spec;
      assert Splits(inner, a, Trim(raw), b, spec);
    }
    if Means(inner, key, spec, isIdent) {
      var a, text, b :| Splits(inner, a, text, b, spec) && Stands(text, key, isIdent);
      ColonAtEnd(a + text + b, spec);
      assert raw == a + text + b;
      TrimDrops(a, text, b);
      StandsExactly(text, key, isIdent);
    }
  }

  /** A number in decimal, a name or nothing, between whitespace and before a spec. */
  lemma PlaceholdersMean(a: string, b: string, spec: string, n: nat, name: string, isIdent: string -> bool)
    requires Blank(a) && Blank(b) && NoColon(a + b) && (spec == "" || spec[0] == ':')
    ensures n < USIZE_LIMIT ==> ParseKey(a + Decimal(n) + b + spec, isIdent) == Ok((Index(n), spec))
    ensures name != "" && Tight(name) && NoColon(name) && isIdent(name) && (forall i :: !Numeral(name, i)) ==>
              ParseKey(a + name + b + spec, isIdent) == Ok((Name(name), spec))
    ensures ParseKey(a + spec, isIdent) == Ok((Implicit, spec))
  {
    hide ParseKey, Numeral;
    if n < USIZE_LIMIT {
      DecimalIsTight(n);
      DecimalIsNumeral(n);
      assert Splits(a + Decimal(n) + b + spec, a, Decimal(n), b, spec);
      ParsesExactlyWhatItMeans(a + Decimal(n) + b + spec, Index(n), spec, isIdent);
    }
    if name != "" && Tight(name) && NoColon(name) && isIdent(name) && forall i :: !Numeral(name, i) {
      assert Splits(a + name + b + spec, a, name, b, spec);
      ParsesExactlyWhatItMeans(a + name + b + spec, Name(name), spec, isIdent);
    }
    assert a + spec == a + "" + "" + spec;
    assert NoColon(a) by {
      assert forall i | 0 <= i < |a| :: a[i] == (a + b)[i];
    }
    assert Splits(a + spec, a, "", "", spec);
    ParsesExactlyWhatItMeans(a + spec, Implicit, spec, isIdent);
  }

  lemma DigitIsTight(c: char)
    ensures IsDigit(c) ==> !IsWhitespace(c) && c != ':'
  {}

  lemma DecimalIsTight(n: nat)
    ensures Tight(Decimal(n)) && NoColon(Decimal(n))
  {
    DecimalRoundTrip(n);
    forall c
      ensures IsDigit(c) ==> !IsWhitespace(c) && c != ':'
    {
      DigitIsTight(c);
    }
  }

  lemma DecimalIsNumeral(n: nat)
    requires n < USIZE_LIMIT
    ensures Numeral(Decimal(n), n)
  {
    DecimalRoundTrip(n);
  }

  // ----- messages as sequences of pieces

  datatype Piece = OpenBrace | CloseBrace | Text(c: char) | Hole(inner: string)

  predicate IsBrace(c: char) {
    c == '{' || c == '}'
  }

  predicate NoBraces(s: string) {
    forall i | 0 <= i < |s| :: !IsBrace(s[i])
  }

  function Spelling(piece: Piece): string {
    match piece
    case OpenBrace => "{{"
    case CloseBrace => "}}"
    case Text(c) => [c]
    case Hole(inner) => "{" + inner + "}"
  }

  function Spell(pieces: seq<Piece>): string {
    if pieces == [] then "" else Spelling(pieces[0]) + Spell(pieces[1..])
  }

  predicate WellFormed(piece: Piece, isIdent: string -> bool) {
    match piece
    case OpenBrace => true
    case CloseBrace => true
    case Text(c) => !IsBrace(c)
    case Hole(inner) => NoBraces(inner) && ParseKey(inner, isIdent).Ok?
  }

  /** The grammar of accepted messages. */
  predicate AllWellFormed(pieces: seq<Piece>, isIdent: string -> bool) {
    forall i | 0 <= i < |pieces| :: WellFormed(pieces[i], isIdent)
  }

  /** The position of the first brace, or the length. */
  function BraceAt(s: string): (i: nat)
    ensures i <= |s|
    ensures i < |s| ==> IsBrace(s[i])
    ensures NoBraces(s[..i])
  {
    if s == [] || IsBrace(s[0]) then 0
    else
      assert s[..1 + BraceAt(s[1..])] == [s[0]] + s[1..][..BraceAt(s[1..])];
      1 + BraceAt(s[1..])
  }

  /** The pieces of a message, or the first thing wrong with it. */
  function Pieces(message: string, isIdent: string -> bool): Result<seq<Piece>, FormatError> {
    match FirstPiece(message, isIdent)
    case Err(error) => Err(error)
    case Ok(None) => Ok([])
    case Ok(Some(piece)) => Prepend([piece], Pieces(message[|Spelling(piece)|..], isIdent))
  }

  function FirstPiece(message: string, isIdent: string -> bool): (r: Result<Option<Piece>, FormatError>)
    ensures r.Ok? ==> (r.value.None? <==> message == [])
    ensures r.Ok? && r.value.Some? ==> |Spelling(r.value.value)| >= 1 && Spelling(r.value.value) <= message
  {
    if message == [] then Ok(None)
    else if message[0] == '{' then
      if |message| > 1 && message[1] == '{' then Ok(Some(OpenBrace)) else FirstHole(message, isIdent)
    else if message[0] == '}' then
      if |message| > 1 && message[1] == '}' then Ok(Some(CloseBrace)) else Err(UnmatchedClosingBrace)
    else Ok(Some(Text(message[0])))
  }

  function FirstHole(message: string, isIdent: string -> bool): (r: Result<Option<Piece>, FormatError>)
    requires message != [] && message[0] == '{'
    ensures r.Ok? ==> r.value.Some? && 1 <= |Spelling(r.value.value)| && Spelling(r.value.value) <= message
  {
    var end := 1 + BraceAt(message[1..]);
    if end == |message| then Err(UnterminatedPlaceholder)
    else if message[end] == '{' then Err(NestedBraces)
    else
      match ParseKey(message[1..end], isIdent)
      case Err(error) => Err(error)
      case Ok(_) =>
        assert message[..end + 1] == "{" + message[1..end] + "}";
        Ok(Some(Hole(message[1..end])))
  }

  function Prepend(pieces: seq<Piece>, rest: Result<seq<Piece>, FormatError>): Result<seq<Piece>, FormatError> {
    match rest
    case Ok(more) => Ok(pieces + more)
    case Err(error) => Err(error)
  }

  lemma BraceAtIs(s: string, i: nat)
    requires i < |s| && IsBrace(s[i]) && NoBraces(s[..i])
    ensures BraceAt(s) == i
  {
    assert BraceAt(s) < |s| ==> IsBrace(s[BraceAt(s)]);
  }

  lemma FirstPieceIs(piece: Piece, rest: string, isIdent: string -> bool)
    requires WellFormed(piece, isIdent)
    ensures FirstPiece(Spelling(piece) + rest, isIdent) == Ok(Some(piece))
  {
    hide ParseKey, BraceAt;
    if piece.Hole? {
      FirstHoleIs(piece.inner, rest, isIdent);
    }
  }

  lemma FirstHoleIs(inner: string, rest: string, isIdent: string -> bool)
    requires WellFormed(Hole(inner), isIdent)
    ensures FirstPiece("{" + inner + "}" + rest, isIdent) == Ok(Some(Hole(inner)))
  {
    hide ParseKey, BraceAt;
    var message := "{" + inner + "}" + rest;
    var tail := inner + "}" + rest;
    assert message[1..] == tail;
    assert tail[..|inner|] == inner && tail[|inner|] == '}';
    BraceAtIs(tail, |inner|);
    assert message[1] == tail[0];
    assert message[1..1 + |inner|] == inner;
    assert message[1 + |inner|] == '}';
  }

  lemma FirstPieceIsWellFormed(message: string, isIdent: string -> bool)
    requires FirstPiece(message, isIdent).Ok? && FirstPiece(message, isIdent).value.Some?
    ensures WellFormed(FirstPiece(message, isIdent).value.value, isIdent)
  {
    if message[0] == '{' && !(|message| > 1 && message[1] == '{') {
      var end := BraceAt(message[1..]);
      assert message[1..1 + end] == message[1..][..end];
    }
  }

  lemma NothingToRead(isIdent: string -> bool)
    ensures Pieces("", isIdent) == Ok([])
  {}

  lemma PiecesHead(message: string, pieces: seq<Piece>, isIdent: string -> bool)
    requires Pieces(message, isIdent) == Ok(pieces) && pieces != []
    ensures WellFormed(pieces[0], isIdent) && Spelling(pieces[0]) <= message
  {
    FirstPieceIsWellFormed(message, isIdent);
  }

  lemma SpellHead(pieces: seq<Piece>, message: string, isIdent: string -> bool)
    requires pieces != [] && AllWellFormed(pieces, isIdent) && Spell(pieces) == message
    ensures WellFormed(pieces[0], isIdent) && Spelling(pieces[0]) <= message
  {
    hide Spelling;
  }

  /** The accepted messages are exactly those spelt by well-formed pieces, and the pieces are unique. */
  lemma {:induction false} PiecesAreTheGrammar(message: string, pieces: seq<Piece>, isIdent: string -> bool)
    ensures Pieces(message, isIdent) == Ok(pieces) <==> AllWellFormed(pieces, isIdent) && Spell(pieces) == message
    decreases |message| + |pieces|
  {
    hide FirstPiece, FirstHole, BraceAt, ParseKey, Spelling, WellFormed;
    if pieces == [] {
      NothingToRead(isIdent);
    } else if WellFormed(pieces[0], isIdent) && Spelling(pieces[0]) <= message {
      var n := |Spelling(pieces[0])|;
      assert message == Spelling(pieces[0]) + message[n..];
      FirstPieceIs(pieces[0], message[n..], isIdent);
      PiecesAreTheGrammar(message[n..], pieces[1..], isIdent);
      assert pieces == [pieces[0]] + pieces[1..];
    } else {
      if Pieces(message, isIdent) == Ok(pieces) {
        PiecesHead(message, pieces, isIdent);
      }
      if AllWellFormed(pieces, isIdent) && Spell(pieces) == message {
        SpellHead(pieces, message, isIdent);
      }
    }
  }

  // ----- what is wrong with a refused message

  /** The text is empty or begins with something other than the character. */
  predicate DoesNotBegin(text: string, c: char) {
    text == "" || text[0] != c
  }

  /** What follows the readable part of a message, and what is wrong with it: a closing brace on its own, an
      opening brace that no closing brace follows, another opening brace inside a placeholder, or a placeholder
      whose text means nothing. */
  ghost predicate Breaks(rest: string, error: FormatError, isIdent: string -> bool) {
    match error
    case UnmatchedClosingBrace => rest != "" && rest[0] == '}' && DoesNotBegin(rest[1..], '}')
    case UnterminatedPlaceholder => rest != "" && rest[0] == '{' && NoBraces(rest[1..])
    case NestedBraces => exists inner, more :: inner != "" && NoBraces(inner) && rest == "{" + inner + "{" + more
    case UnsupportedPlaceholder(text) => exists inner, more ::
      NoBraces(inner) && rest == "{" + inner + "}" + more && MeansNothing(inner, text, isIdent)
  }

  /** The text between the whitespace is no key. */
  ghost predicate MeansNothing(inner: string, text: string, isIdent: string -> bool) {
    && (exists a, b, spec :: Splits(inner, a, text, b, spec))
    && forall key :: !Stands(text, key, isIdent)
  }

  lemma KeyErrorExactly(inner: string, text: string, isIdent: string -> bool)
    ensures ParseKey(inner, isIdent) == Err(UnsupportedPlaceholder(text)) <==> MeansNothing(inner, text, isIdent)
    ensures ParseKey(inner, isIdent).Err? ==> ParseKey(inner, isIdent).error.UnsupportedPlaceholder?
  {
    hide Stands, KeyFrom, Trim;
    var raw := inner[..ColonAt(inner)];
    var a, b := TrimSplits(raw);
    assert inner == raw + inner[ColonAt(inner)..];
    assert Splits(inner, a, Trim(raw), b, inner[ColonAt(inner)..]);
    KeyErrors(Trim(raw), isIdent);
    if MeansNothing(inner, text, isIdent) {
      var a1, b1, spec1 :| Splits(inner, a1, text, b1, spec1);
      ColonAtEnd(a1 + text + b1, spec1);
      assert raw == a1 + text + b1;
      TrimDrops(a1, text, b1);
    }
  }

  lemma KeyErrors(text: string, isIdent: string -> bool)
    ensures KeyFrom(text, isIdent).Err? <==> forall key :: !Stands(text, key, isIdent)
    ensures KeyFrom(text, isIdent).Err? ==> KeyFrom(text, isIdent).error == UnsupportedPlaceholder(text)
  {
    hide Stands;
    forall key
      ensures Stands(text, key, isIdent) <==> KeyFrom(text, isIdent) == Ok(key)
    {
      StandsExactly(text, key, isIdent);
    }
  }

  /** Where a placeholder ends is determined by the message. */
  lemma EndsOnce(tail: string, inner: string, more: string, brace: char)
    requires IsBrace(brace) && NoBraces(inner) && tail == inner + [brace] + more
    ensures BraceAt(tail) == |inner| < |tail| && tail[|inner|] == brace && tail[..|inner|] == inner
  {
    hide BraceAt;
    BraceAtIs(tail, |inner|);
  }

  lemma AfterBrace(tail: string, inner: string, more: string, brace: string)
    requires "{" + tail == "{" + inner + brace + more
    ensures tail == inner + brace + more
  {
    var whole := "{" + inner + brace + more;
    assert ("{" + tail)[1..] == tail && whole == "{" + (inner + brace + more);
    assert whole[1..] == inner + brace + more;
  }

  lemma HoleBreaks(message: string, error: FormatError, isIdent: string -> bool)
    requires message != "" && message[0] == '{' && DoesNotBegin(message[1..], '{')
    ensures FirstPiece(message, isIdent) == Err(error) <==> Breaks(message, error, isIdent)
  {
    hide ParseKey, MeansNothing, BraceAt;
    var tail := message[1..];
    assert message == "{" + tail;
    var end := BraceAt(tail);
    if end < |tail| {
      var inner, more := tail[..end], tail[end + 1..];
      assert tail == inner + [tail[end]] + more;
      assert message[1..1 + end] == inner && message[1 + end] == tail[end];
      assert message == "{" + inner + [tail[end]] + more;
      assert !NoBraces(tail);
      forall text
        ensures ParseKey(inner, isIdent) == Err(UnsupportedPlaceholder(text)) <==> MeansNothing(inner, text, isIdent)
      {
        KeyErrorExactly(inner, text, isIdent);
      }
      KeyErrorExactly(inner, "", isIdent);
      if tail[end] == '}' {
        assert message == "{" + inner + "}" + more;
      } else {
        assert message == "{" + inner + "{" + more;
      }
    }
    forall inner1, more1 | NoBraces(inner1) && message == "{" + inner1 + "}" + more1
      ensures end < |tail| && tail[end] == '}' && tail[..end] == inner1
    {
      AfterBrace(tail, inner1, more1, "}");
      assert inner1 + "}" + more1 == inner1 + ['}'] + more1;
      EndsOnce(tail, inner1, more1, '}');
    }
    forall inner1, more1 | NoBraces(inner1) && message == "{" + inner1 + "{" + more1
      ensures end < |tail| && tail[end] == '{' && tail[..end] == inner1
    {
      AfterBrace(tail, inner1, more1, "{");
      assert inner1 + "{" + more1 == inner1 + ['{'] + more1;
      EndsOnce(tail, inner1, more1, '{');
    }
    match error
    case UnmatchedClosingBrace =>
    case UnterminatedPlaceholder =>
    case NestedBraces =>
      if end < |tail| && tail[end] == '{' {
        var inner, more := tail[..end], tail[end + 1..];
        assert inner != "" && NoBraces(inner) && message == "{" + inner + "{" + more;
      }
    case UnsupportedPlaceholder(text) =>
  }

  lemma BreaksExactly(message: string, error: FormatError, isIdent: string -> bool)
    ensures FirstPiece(message, isIdent) == Err(error) <==> Breaks(message, error, isIdent)
  {
    hide ParseKey, MeansNothing, FirstHole;
    if message != "" && message[0] == '{' {
      assert message[1..] != "" ==> message[1..][0] == message[1];
      if DoesNotBegin(message[1..], '{') {
        HoleBreaks(message, error, isIdent);
      } else {
        BracePairBreaksNothing(message, error, isIdent);
      }
    } else if message != "" && message[0] == '}' {
      assert message[1..] != "" ==> message[1..][0] == message[1];
    }
  }

  lemma BracePairBreaksNothing(message: string, error: FormatError, isIdent: string -> bool)
    requires |message| >= 2 && message[0] == '{' && message[1] == '{'
    ensures !Breaks(message, error, isIdent)
  {
    hide MeansNothing;
    assert IsBrace(message[1..][0]);
    forall inner, more, brace: char | NoBraces(inner) && message == "{" + inner + [brace] + more
      ensures inner == "" && brace == '{'
    {
      assert message[1] == (inner + [brace] + more)[0];
    }
    forall inner, more
      ensures message == "{" + inner + "{" + more <==> message == "{" + inner + ['{'] + more
      ensures message == "{" + inner + "}" + more <==> message == "{" + inner + ['}'] + more
    {}
  }

  /** A message is refused for exactly what is wrong after its longest readable beginning. */
  lemma {:induction false} RefusedExactly(message: string, error: FormatError, isIdent: string -> bool)
    ensures Pieces(message, isIdent) == Err(error) <==>
            exists pieces, rest :: AllWellFormed(pieces, isIdent) && message == Spell(pieces) + rest && Breaks(rest, error, isIdent)
    decreases message
  {
    hide FirstPiece, Breaks, Spelling, WellFormed;
    BreaksExactly(message, error, isIdent);
    if Breaks(message, error, isIdent) {
      assert message == Spell([]) + message;
    } else {
      if Pieces(message, isIdent) == Err(error) {
        RefusedHasReason(message, error, isIdent);
      }
      if exists pieces, rest :: AllWellFormed(pieces, isIdent) && message == Spell(pieces) + rest && Breaks(rest, error, isIdent) {
        var pieces, rest :| AllWellFormed(pieces, isIdent) && message == Spell(pieces) + rest && Breaks(rest, error, isIdent);
        ReasonRefuses(pieces, rest, error, isIdent);
      }
    }
  }

  lemma {:induction false} ReasonRefuses(pieces: seq<Piece>, rest: string, error: FormatError, isIdent: string -> bool)
    requires AllWellFormed(pieces, isIdent) && Breaks(rest, error, isIdent)
    ensures Pieces(Spell(pieces) + rest, isIdent) == Err(error)
    decreases pieces
  {
    hide FirstPiece, Breaks, Spelling, WellFormed;
    if pieces == [] {
      assert Spell(pieces) + rest == rest;
      BreaksExactly(rest, error, isIdent);
    } else {
      var first, more := Spelling(pieces[0]), Spell(pieces[1..]) + rest;
      assert Spell(pieces) + rest == first + more;
      FirstPieceIs(pieces[0], more, isIdent);
      ReasonRefuses(pieces[1..], rest, error, isIdent);
      assert (first + more)[|first|..] == more;
    }
  }

  lemma {:induction false} RefusedHasReason(message: string, error: FormatError, isIdent: string -> bool)
    requires Pieces(message, isIdent) == Err(error)
    ensures exists pieces, rest :: AllWellFormed(pieces, isIdent) && message == Spell(pieces) + rest && Breaks(rest, error, isIdent)
    decreases message
  {
    hide FirstPiece, Breaks, Spelling, WellFormed;
    BreaksExactly(message, error, isIdent);
    if FirstPiece(message, isIdent) == Err(error) {
      assert message == Spell([]) + message;
    } else {
      var piece := FirstPiece(message, isIdent).value.value;
      var n := |Spelling(piece)|;
      FirstPieceIsWellFormed(message, isIdent);
      RefusedHasReason(message[n..], error, isIdent);
      var pieces, rest :| AllWellFormed(pieces, isIdent) && message[n..] == Spell(pieces) + rest && Breaks(rest, error, isIdent);
      var all := [piece] + pieces;
      assert all[1..] == pieces;
      assert message == Spell(all) + rest;
    }
  }

  // ----- the rewriting

  function KeyOf(piece: Piece, isIdent: string -> bool): Key
    requires piece.Hole? && WellFormed(piece, isIdent)
  {
    ParseKey(piece.inner, isIdent).value.0
  }

  /** The keys of the placeholders, in order. */
  function Keys(pieces: seq<Piece>, isIdent: string -> bool): seq<Key>
    requires AllWellFormed(pieces, isIdent)
  {
    if pieces == [] then []
    else (if pieces[0].Hole? then [KeyOf(pieces[0], isIdent)] else []) + Keys(pieces[1..], isIdent)
  }

  /** A placeholder keeps its format spec and loses its key. */
  function RewritePiece(piece: Piece): Piece {
    if piece.Hole? then Hole(piece.inner[ColonAt(piece.inner)..]) else piece
  }

  function Rewrite(pieces: seq<Piece>): (r: seq<Piece>)
    ensures |r| == |pieces| && forall i | 0 <= i < |pieces| :: r[i] == RewritePiece(pieces[i])
  {
    seq(|pieces|, i requires 0 <= i < |pieces| => RewritePiece(pieces[i]))
  }

  lemma {:induction false} SpellConcat(a: seq<Piece>, b: seq<Piece>)
    ensures Spell(a + b) == Spell(a) + Spell(b)
  {
    hide Spelling;
    if a == [] {
      assert a + b == b;
    } else {
      var first, rest := Spelling(a[0]), a[1..];
      SpellConcat(rest, b);
      assert (a + b)[0] == a[0] && (a + b)[1..] == rest + b;
      Regroup(first, Spell(rest), Spell(b));
    }
  }

  lemma {:induction false} KeysConcat(a: seq<Piece>, b: seq<Piece>, isIdent: string -> bool)
    requires AllWellFormed(a, isIdent) && AllWellFormed(b, isIdent)
    ensures AllWellFormed(a + b, isIdent)
    ensures Keys(a + b, isIdent) == Keys(a, isIdent) + Keys(b, isIdent)
  {
    hide ParseKey, WellFormed;
    if a == [] {
      assert a + b == b;
    } else {
      var first, rest := if a[0].Hole? then [KeyOf(a[0], isIdent)] else [], a[1..];
      KeysConcat(rest, b, isIdent);
      assert (a + b)[0] == a[0] && (a + b)[1..] == rest + b;
      Regroup(first, Keys(rest, isIdent), Keys(b, isIdent));
    }
  }

  lemma {:induction false} RewrittenStep(done: seq<Piece>, piece: Piece, isIdent: string -> bool)
    requires AllWellFormed(done, isIdent) && WellFormed(piece, isIdent)
    ensures AllWellFormed(done + [piece], isIdent)
    ensures Spell(Rewrite(done + [piece])) == Spell(Rewrite(done)) + Spelling(RewritePiece(piece))
    ensures Keys(done + [piece], isIdent) == Keys(done, isIdent) + if piece.Hole? then [KeyOf(piece, isIdent)] else []
  {
    assert Rewrite(done + [piece]) == Rewrite(done) + [RewritePiece(piece)];
    SpellConcat(Rewrite(done), [RewritePiece(piece)]);
    KeysConcat(done, [piece], isIdent);
    assert Spell([RewritePiece(piece)]) == Spelling(RewritePiece(piece)) by {
      assert [RewritePiece(piece)][1..] == [];
    }
    assert Keys([piece], isIdent) == if piece.Hole? then [KeyOf(piece, isIdent)] else [] by {
      assert [piece][1..] == [];
    }
  }

  /** What is left of the message after the pieces read so far. */
  ghost predicate Read(message: string, index: nat, done: seq<Piece>, isIdent: string -> bool) {
    && index <= |message| && AllWellFormed(done, isIdent)
    && Pieces(message, isIdent) == Prepend(done, Pieces(message[index..], isIdent))
  }

  lemma {:induction false} ReadIsWellFormed(message: string, index: nat, done: seq<Piece>, isIdent: string -> bool)
    requires Read(message, index, done, isIdent)
    ensures index <= |message| && AllWellFormed(done, isIdent)
  {}

  lemma {:induction false} ReadOne(message: string, index: nat, done: seq<Piece>, isIdent: string -> bool)
    requires Read(message, index, done, isIdent)
    requires FirstPiece(message[index..], isIdent).Ok? && FirstPiece(message[index..], isIdent).value.Some?
    ensures
      var piece := FirstPiece(message[index..], isIdent).value.value;
      && WellFormed(piece, isIdent)
      && Read(message, index + |Spelling(piece)|, done + [piece], isIdent)
  {
    FirstPieceIsWellFormed(message[index..], isIdent);
    PiecesStep(message[index..], isIdent);
    hide FirstPiece, FirstHole, WellFormed, Spelling, Pieces, Prepend;
    var piece := FirstPiece(message[index..], isIdent).value.value;
    var n := |Spelling(piece)|;
    assert message[index..][n..] == message[index + n..];
    PrependTwice(done, [piece], Pieces(message[index + n..], isIdent));
  }

  lemma PiecesStep(message: string, isIdent: string -> bool)
    requires FirstPiece(message, isIdent).Ok? && FirstPiece(message, isIdent).value.Some?
    ensures
      var piece := FirstPiece(message, isIdent).value.value;
      Pieces(message, isIdent) == Prepend([piece], Pieces(message[|Spelling(piece)|..], isIdent))
  {}

  lemma PrependTwice(a: seq<Piece>, b: seq<Piece>, rest: Result<seq<Piece>, FormatError>)
    ensures Prepend(a, Prepend(b, rest)) == Prepend(a + b, rest)
  {
    if rest.Ok? {
      assert a + (b + rest.value) == (a + b) + rest.value;
    }
  }

  /** The result of rewriting a message: the positional format string and the keys it had. */
  function Rewritten(message: string, isIdent: string -> bool): Result<(string, seq<Key>), FormatError> {
    match Pieces(message, isIdent)
    case Err(error) => Err(error)
    case Ok(pieces) =>
      PiecesAreTheGrammar(message, pieces, isIdent);
      Ok((Spell(Rewrite(pieces)), Keys(pieces, isIdent)))
  }

  /** The inner loop: from the character after an opening brace to the brace that ends the placeholder. */
  method FindEnd(chars: string, start: nat) returns (r: Result<nat, FormatError>)
    requires start <= |chars|
    ensures
      var end := start + BraceAt(chars[start..]);
      r == if end == |chars| then Err(UnterminatedPlaceholder)
           else if chars[end] == '{' then Err(NestedBraces) else Ok(end)
  {
    var end := start;
    while end < |chars| && chars[end] != '}'
      invariant start <= end <= |chars|
      invariant forall j | start <= j < end :: !IsBrace(chars[j])
    {
      if chars[end] == '{' {
        BraceAtIs(chars[start..], end - start);
        return Err(NestedBraces);
      }
      end := end + 1;
    }
    if end == |chars| {
      assert BraceAt(chars[start..]) == end - start;
      return Err(UnterminatedPlaceholder);
    }
    BraceAtIs(chars[start..], end - start);
    return Ok(end);
  }

  /** What a piece adds to the format string and to the keys, and where the message goes on after it. */
  function Round(piece: Piece, index: nat, isIdent: string -> bool): (string, seq<Key>, nat)
    requires WellFormed(piece, isIdent)
  {
    (Spelling(RewritePiece(piece)), if piece.Hole? then [KeyOf(piece, isIdent)] else [], index + |Spelling(piece)|)
  }

  /** The round that starts at this index, or what is wrong there. */
  function RoundAt(message: string, index: nat, isIdent: string -> bool): Result<(string, seq<Key>, nat), FormatError>
    requires index < |message|
  {
    match FirstPiece(message[index..], isIdent)
    case Err(error) => Err(error)
    case Ok(piece) =>
      FirstPieceIsWellFormed(message[index..], isIdent);
      Ok(Round(piece.value, index, isIdent))
  }

  /** One round of the loop: what it appends to the format string and to the keys, and where it goes on. */
  method ReadPiece(message: string, index: nat, isIdent: string -> bool) returns (r: Result<(string, seq<Key>, nat), FormatError>)
    requires index < |message|
    ensures r == RoundAt(message, index, isIdent)
  {
    hide ParseKey;
    ghost var rest := message[index..];
    assert rest[0] == message[index] && (index + 1 < |message| ==> rest[1] == message[index + 1]);
    match message[index] {
      case '{' =>
        if index + 1 < |message| && message[index + 1] == '{' {
          return Ok(("{{", [], index + 2));
        }
        r := ReadPlaceholder(message, index, isIdent);
      case '}' =>
        if index + 1 < |message| && message[index + 1] == '}' {
          return Ok(("}}", [], index + 2));
        }
        return Err(UnmatchedClosingBrace);
      case c =>
        return Ok(([c], [], index + 1));
    }
  }

  predicate OpensHole(message: string, index: nat) {
    index < |message| && message[index] == '{' && !(index + 1 < |message| && message[index + 1] == '{')
  }

  lemma FirstHoleAt(message: string, index: nat, isIdent: string -> bool)
    requires OpensHole(message, index)
    ensures
      var end := index + 1 + BraceAt(message[index + 1..]);
      FirstPiece(message[index..], isIdent) ==
      if end == |message| then Err(UnterminatedPlaceholder)
      else if message[end] == '{' then Err(NestedBraces)
      else
        match ParseKey(message[index + 1..end], isIdent)
        case Err(error) => Err(error)
        case Ok(_) => Ok(Some(Hole(message[index + 1..end])))
  {
    hide BraceAt, ParseKey;
    var rest := message[index..];
    assert rest[0] == message[index] && (index + 1 < |message| ==> rest[1] == message[index + 1]);
    assert rest[1..] == message[index + 1..];
    var end := index + 1 + BraceAt(message[index + 1..]);
    assert rest[1..end - index] == message[index + 1..end];
  }

  lemma HoleRound(inner: string, index: nat, isIdent: string -> bool)
    requires WellFormed(Hole(inner), isIdent)
    ensures
      var (key, spec) := ParseKey(inner, isIdent).value;
      Round(Hole(inner), index, isIdent) == ("{" + spec + "}", [key], index + |inner| + 2)
  {}

  method ReadPlaceholder(message: string, index: nat, isIdent: string -> bool) returns (r: Result<(string, seq<Key>, nat), FormatError>)
    requires OpensHole(message, index)
    ensures r == RoundAt(message, index, isIdent)
  {
    hide BraceAt, ParseKey, WellFormed, FirstPiece, Round;
    FirstHoleAt(message, index, isIdent);
    var end := FindEnd(message, index + 1);
    if end.Err? {
      return Err(end.error);
    }
    var inner := message[index + 1..end.value];
    var parsed := ParseKey(inner, isIdent);
    if parsed.Err? {
      return Err(parsed.error);
    }
    FirstPieceIsWellFormed(message[index..], isIdent);
    HoleRound(inner, index, isIdent);
    var (key, spec) := parsed.value;
    return Ok(("{" + spec + "}", [key], end.value + 1));
  }

  /** `parse_error_format`. */
  method ParseErrorFormat(message: string, isIdent: string -> bool) returns (r: Result<(string, seq<Key>), FormatError>)
    ensures r == Rewritten(message, isIdent)
  {
    hide Pieces, Keys, Spell, ParseKey, AllWellFormed, WellFormed, Read, Rewritten, Rewrite, FirstPiece, Spelling, RewritePiece, KeyOf;
    var formatted, keys, index := "", [], 0;
    ghost var done: seq<Piece> := [];
    NothingRead(message, isIdent);
    while index < |message|
      invariant index <= |message|
      invariant Read(message, index, done, isIdent) && AllWellFormed(done, isIdent)
      invariant formatted == Spell(Rewrite(done)) && keys == Keys(done, isIdent)
    {
      var round := ReadPiece(message, index, isIdent);
      if round.Err? {
        StopsHere(message, index, done, isIdent);
        return Err(round.error);
      }
      ghost var piece := FirstPiece(message[index..], isIdent).value.value;
      Advance(message, index, done, piece, isIdent);
      var (text, key, next) := round.value;
      formatted, keys, index := formatted + text, keys + key, next;
      done := done + [piece];
    }
    AllRead(message, done, isIdent);
    return Ok((formatted, keys));
  }

  lemma NothingRead(message: string, isIdent: string -> bool)
    ensures Read(message, 0, [], isIdent) && Spell(Rewrite([])) == "" && Keys([], isIdent) == []
  {
    assert message[0..] == message;
    var all := Pieces(message, isIdent);
    assert all.Ok? ==> [] + all.value == all.value;
  }

  lemma SpecOf(inner: string, isIdent: string -> bool)
    requires ParseKey(inner, isIdent).Ok?
    ensures ParseKey(inner, isIdent).value.1 == inner[ColonAt(inner)..]
  {}

  lemma {:induction false} Advance(message: string, index: nat, done: seq<Piece>, piece: Piece, isIdent: string -> bool)
    requires Read(message, index, done, isIdent) && index <= |message|
    requires FirstPiece(message[index..], isIdent) == Ok(Some(piece))
    ensures WellFormed(piece, isIdent) && AllWellFormed(done, isIdent) && AllWellFormed(done + [piece], isIdent)
    ensures Read(message, index + |Spelling(piece)|, done + [piece], isIdent) && index + |Spelling(piece)| <= |message|
    ensures Spell(Rewrite(done + [piece])) == Spell(Rewrite(done)) + Spelling(RewritePiece(piece))
    ensures Keys(done + [piece], isIdent) == Keys(done, isIdent) + if piece.Hole? then [KeyOf(piece, isIdent)] else []
  {
    hide Pieces, FirstPiece, Keys, Spell, Rewrite, Read, WellFormed, Spelling, RewritePiece, ParseKey;
    ReadOne(message, index, done, isIdent);
    ReadIsWellFormed(message, index, done, isIdent);
    ReadIsWellFormed(message, index + |Spelling(piece)|, done + [piece], isIdent);
    RewrittenStep(done, piece, isIdent);
  }

  lemma {:induction false} StopsHere(message: string, index: nat, done: seq<Piece>, isIdent: string -> bool)
    requires Read(message, index, done, isIdent) && index <= |message| && FirstPiece(message[index..], isIdent).Err?
    ensures Rewritten(message, isIdent) == Err(FirstPiece(message[index..], isIdent).error)
  {}

  lemma {:induction false} AllRead(message: string, done: seq<Piece>, isIdent: string -> bool)
    requires Read(message, |message|, done, isIdent)
    ensures Rewritten(message, isIdent) == Ok((Spell(Rewrite(done)), Keys(done, isIdent)))
  {
    assert message[|message|..] == [];
    assert done + [] == done;
  }

  // ----- the arguments of the placeholders

  /** An explicit argument: `.0` or `.name`. */
  datatype FormatArg = ArgIndex(index: nat) | ArgName(name: string)

  datatype Shape = Unit | Unnamed(count: nat) | Named(names: seq<string>)

  datatype DisplayError =
    | BadFormat(error: FormatError)
    | PlaceholdersNeedFields
    | MixedArguments
    | NoExplicitArgument
    | UnknownField(name: string)
    | OutOfBounds(index: nat)
    | UnusedArguments

  function FieldNames(shape: Shape): seq<string> {
    if shape.Named? then shape.names else []
  }

  function FieldCount(shape: Shape): nat {
    match shape
    case Unit => 0
    case Unnamed(count) => count
    case Named(names) => |names|
  }

  function Bound(index: nat, count: nat): Result<nat, DisplayError> {
    if index < count then Ok(index) else Err(OutOfBounds(index))
  }

  function NamedField(name: string, names: seq<string>, count: nat): Result<nat, DisplayError> {
    if IndexOf(names, name) < |names| then Bound(IndexOf(names, name), count) else Err(UnknownField(name))
  }

  /** `format_arg_tokens`: the field an explicit argument stands for. */
  function ExplicitField(arg: FormatArg, names: seq<string>, count: nat): Result<nat, DisplayError> {
    match arg
    case ArgIndex(index) => Bound(index, count)
    case ArgName(name) => NamedField(name, names, count)
  }

  /** The field a placeholder shows, given how many implicit placeholders come before it. */
  function Argument(key: Key, implicit: nat, names: seq<string>, count: nat, explicit: seq<FormatArg>): Result<nat, DisplayError> {
    if explicit != [] then
      if !key.Implicit? then Err(MixedArguments)
      else if implicit >= |explicit| then Err(NoExplicitArgument)
      else ExplicitField(explicit[implicit], names, count)
    else
      match key
      case Implicit => Bound(implicit, count)
      case Index(index) => Bound(index, count)
      case Name(name) => NamedField(name, names, count)
  }

  function After(key: Key, implicit: nat): nat {
    if key.Implicit? then implicit + 1 else implicit
  }

  /** The fields of all the placeholders, or the first error. */
  function Arguments(keys: seq<Key>, implicit: nat, names: seq<string>, count: nat, explicit: seq<FormatArg>): Result<seq<nat>, DisplayError>
    decreases keys
  {
    if keys == [] then Ok([])
    else
      match Argument(keys[0], implicit, names, count, explicit)
      case Err(error) => Err(error)
      case Ok(field) =>
        match Arguments(keys[1..], After(keys[0], implicit), names, count, explicit)
        case Err(error) => Err(error)
        case Ok(rest) => Ok([field] + rest)
  }

  /** All the placeholders resolve, and no explicit argument is left over. */
  function AllArguments(keys: seq<Key>, names: seq<string>, count: nat, explicit: seq<FormatArg>): Result<seq<nat>, DisplayError> {
    match Arguments(keys, 0, names, count, explicit)
    case Err(error) => Err(error)
    case Ok(args) => if explicit != [] && |keys| != |explicit| then Err(UnusedArguments) else Ok(args)
  }

  function Resume(args: seq<nat>, rest: Result<seq<nat>, DisplayError>): Result<seq<nat>, DisplayError> {
    if rest.Ok? then Ok(args + rest.value) else rest
  }

  lemma ResolveOne(
      args: seq<nat>, keys: seq<Key>, k: nat, implicit: nat, names: seq<string>, count: nat, explicit: seq<FormatArg>)
    requires k < |keys|
    ensures
      var rest := Arguments(keys[k..], implicit, names, count, explicit);
      match Argument(keys[k], implicit, names, count, explicit)
      case Err(error) => rest == Err(error)
      case Ok(field) =>
        Resume(args, rest) ==
        Resume(args + [field], Arguments(keys[k + 1..], After(keys[k], implicit), names, count, explicit))
  {
    DropOne(keys, k);
    var next := Arguments(keys[k + 1..], After(keys[k], implicit), names, count, explicit);
    if next.Ok? && Argument(keys[k], implicit, names, count, explicit).Ok? {
      var field := Argument(keys[k], implicit, names, count, explicit).value;
      assert args + ([field] + next.value) == (args + [field]) + next.value;
    }
  }

  /** `display_args_tokens`. */
  method DisplayArgs(keys: seq<Key>, names: seq<string>, count: nat, explicit: seq<FormatArg>)
    returns (r: Result<seq<nat>, DisplayError>)
    ensures r == AllArguments(keys, names, count, explicit)
  {
    hide Arguments, NamedField, IndexOf;
    var args, nextImplicit, nextExplicit := [], 0, 0;
    ghost var all := Arguments(keys, 0, names, count, explicit);
    assert keys[0..] == keys;
    assert all.Ok? ==> [] + all.value == all.value;
    for k := 0 to |keys|
      invariant explicit == [] ==> nextExplicit == 0
      invariant explicit != [] ==> nextExplicit == k
      invariant all == Resume(args, Arguments(keys[k..], if explicit == [] then nextImplicit else nextExplicit, names, count, explicit))
    {
      ResolveOne(args, keys, k, if explicit == [] then nextImplicit else nextExplicit, names, count, explicit);
      if explicit != [] {
        if !keys[k].Implicit? {
          return Err(MixedArguments);
        }
        if nextExplicit >= |explicit| {
          return Err(NoExplicitArgument);
        }
        var arg := explicit[nextExplicit];
        nextExplicit := nextExplicit + 1;
        var field := ExplicitField(arg, names, count);
        if field.Err? {
          return Err(field.error);
        }
        args := args + [field.value];
        continue;
      }
      var index: nat;
      match keys[k] {
        case Implicit =>
          index := nextImplicit;
          nextImplicit := nextImplicit + 1;
        case Index(given) =>
          index := given;
        case Name(name) =>
          index := IndexOf(names, name);
          if index == |names| {
            NameUnknown(names, count, name);
            return Err(UnknownField(name));
          }
          NameKnown(names, count, name);
      }
      if index >= count {
        return Err(OutOfBounds(index));
      }
      args := args + [index];
    }
    NoKeysLeft(keys, if explicit == [] then nextImplicit else nextExplicit, names, count, explicit);
    assert args + [] == args;
    if nextExplicit != |explicit| {
      return Err(UnusedArguments);
    }
    return Ok(args);
  }

  lemma NoKeysLeft(keys: seq<Key>, implicit: nat, names: seq<string>, count: nat, explicit: seq<FormatArg>)
    ensures Arguments(keys[|keys|..], implicit, names, count, explicit) == Ok([])
  {}

  lemma NameUnknown(names: seq<string>, count: nat, name: string)
    requires IndexOf(names, name) == |names|
    ensures NamedField(name, names, count) == Err(UnknownField(name))
  {}

  lemma NameKnown(names: seq<string>, count: nat, name: string)
    requires IndexOf(names, name) < |names|
    ensures NamedField(name, names, count) == Bound(IndexOf(names, name), count)
  {}

  /** The format string and the arguments of a variant's display arm; a unit variant takes none, and its
      explicit arguments are not looked at. */
  function Arm(shape: Shape, message: string, explicit: seq<FormatArg>, isIdent: string -> bool): Result<(string, seq<nat>), DisplayError> {
    match Rewritten(message, isIdent)
    case Err(error) => Err(BadFormat(error))
    case Ok((formatted, keys)) =>
      if shape.Unit? then if keys != [] then Err(PlaceholdersNeedFields) else Ok((formatted, []))
      else
        match AllArguments(keys, FieldNames(shape), FieldCount(shape), explicit)
        case Err(error) => Err(error)
        case Ok(args) => Ok((formatted, args))
  }

  /** `display_arm_tokens`, for a variant that is not transparent. */
  method DisplayArm(shape: Shape, message: string, explicit: seq<FormatArg>, isIdent: string -> bool)
    returns (r: Result<(string, seq<nat>), DisplayError>)
    ensures r == Arm(shape, message, explicit, isIdent)
  {
    hide Rewritten, AllArguments;
    var parsed := ParseErrorFormat(message, isIdent);
    if parsed.Err? {
      return Err(BadFormat(parsed.error));
    }
    var (formatted, keys) := parsed.value;
    if shape.Unit? {
      return if keys != [] then Err(PlaceholdersNeedFields) else Ok((formatted, []));
    }
    var args := DisplayArgs(keys, FieldNames(shape), FieldCount(shape), explicit);
    return if args.Ok? then Ok((formatted, args.value)) else Err(args.error);
  }

  // ----- what a message and a format string say

  /** A name stands for the first field that has it. */
  ghost predicate Names(name: string, names: seq<string>, field: nat) {
    field < |names| && names[field] == name && forall i | 0 <= i < field :: names[i] != name
  }

  /** Which field a placeholder shows, said without computing it. With explicit arguments, the placeholder must
      be implicit and shows what the next argument stands for. Without, an index stands for the field with that
      index, a name for the field with that name, and the implicit placeholders for the fields in order. */
  ghost predicate Shows(key: Key, implicitBefore: nat, names: seq<string>, count: nat, explicit: seq<FormatArg>, field: nat) {
    && field < count
    && if explicit != [] then
         && key == Implicit && implicitBefore < |explicit|
         && match explicit[implicitBefore]
            case ArgIndex(index) => field == index
            case ArgName(name) => Names(name, names, field)
       else
         match key
         case Implicit => field == implicitBefore
         case Index(index) => field == index
         case Name(name) => Names(name, names, field)
  }

  /** What the text of a placeholder says: the spec, and the field that its key shows. */
  ghost predicate Says(inner: string, key: Key, spec: string, implicitBefore: nat, names: seq<string>, count: nat,
                       explicit: seq<FormatArg>, field: nat, isIdent: string -> bool) {
    Means(inner, key, spec, isIdent) && Shows(key, implicitBefore, names, count, explicit, field)
  }

  /** The text a message stands for: each placeholder shows its field, under its own format spec; a message
      with a placeholder that shows no field stands for nothing. */
  ghost function Meaning<V>(pieces: seq<Piece>, implicitBefore: nat, names: seq<string>, fields: seq<V>, explicit: seq<FormatArg>,
                            show: (string, V) -> string, isIdent: string -> bool): Option<string>
    requires AllWellFormed(pieces, isIdent)
    decreases pieces
  {
    if pieces == [] then Some("")
    else
      match pieces[0]
      case OpenBrace => Before("{", Meaning(pieces[1..], implicitBefore, names, fields, explicit, show, isIdent))
      case CloseBrace => Before("}", Meaning(pieces[1..], implicitBefore, names, fields, explicit, show, isIdent))
      case Text(c) => Before([c], Meaning(pieces[1..], implicitBefore, names, fields, explicit, show, isIdent))
      case Hole(inner) =>
        if exists key, spec, field: nat :: Says(inner, key, spec, implicitBefore, names, |fields|, explicit, field, isIdent) then
          var key, spec, field: nat :| Says(inner, key, spec, implicitBefore, names, |fields|, explicit, field, isIdent);
          Before(show(spec, fields[field]),
                 Meaning(pieces[1..], implicitBefore + if key == Implicit then 1 else 0, names, fields, explicit, show, isIdent))
        else None
  }

  /** The computed field of a placeholder is the one it shows, and there is an error exactly when it shows
      none. */
  lemma ArgumentIsShown(key: Key, implicit: nat, names: seq<string>, count: nat, explicit: seq<FormatArg>, field: nat)
    ensures Argument(key, implicit, names, count, explicit) == Ok(field) <==> Shows(key, implicit, names, count, explicit, field)
  {
    match key
    case Name(name) => FirstIsIndexOf(name, names, field);
    case _ =>
      if explicit != [] && implicit < |explicit| && explicit[implicit].ArgName? {
        FirstIsIndexOf(explicit[implicit].name, names, field);
      }
  }

  /** Why a placeholder shows no field. With explicit arguments: it has a key, no argument is left, or the next
      argument names no field or one out of bounds. Without: its name is unknown, or its index or its turn is
      out of bounds. */
  lemma NotShownBecause(key: Key, implicit: nat, names: seq<string>, count: nat, explicit: seq<FormatArg>, name: string, index: nat)
    requires |names| <= count
    ensures
      var r := Argument(key, implicit, names, count, explicit);
      && (r == Err(MixedArguments) <==> explicit != [] && key != Implicit)
      && (r == Err(NoExplicitArgument) <==> explicit != [] && key == Implicit && implicit >= |explicit|)
      && (r == Err(UnknownField(name)) <==>
          name !in names
          && (if explicit == [] then key == Name(name)
              else key == Implicit && implicit < |explicit| && explicit[implicit] == ArgName(name)))
      && (r == Err(OutOfBounds(index)) <==>
          index >= count
          && (if explicit == [] then key == Index(index) || (key == Implicit && implicit == index)
              else key == Implicit && implicit < |explicit| && explicit[implicit] == ArgIndex(index)))
      && (r.Err? ==> r.error.MixedArguments? || r.error.NoExplicitArgument? || r.error.UnknownField? || r.error.OutOfBounds?)
  {
    hide IndexOf;
    NameIsFound(names, name);
    match key
    case Name(given) => NameIsFound(names, given);
    case _ =>
      if explicit != [] && implicit < |explicit| && explicit[implicit].ArgName? {
        NameIsFound(names, explicit[implicit].name);
      }
  }

  lemma NameIsFound(names: seq<string>, name: string)
    ensures name in names <==> IndexOf(names, name) < |names|
  {
    if name in names {
      var i :| 0 <= i < |names| && names[i] == name;
    }
  }

  /** What a refused display arm is refused for: a message that cannot be read, placeholders on a unit variant,
      the first placeholder that shows no field, or explicit arguments left over. */
  lemma ArmRefusedBecause(shape: Shape, message: string, explicit: seq<FormatArg>, isIdent: string -> bool, error: DisplayError)
    requires Arm(shape, message, explicit, isIdent) == Err(error)
    ensures
      match Pieces(message, isIdent)
      case Err(bad) => error == BadFormat(bad)
      case Ok(pieces) =>
        && AllWellFormed(pieces, isIdent)
        && var keys := Keys(pieces, isIdent);
           if shape == Unit then error == PlaceholdersNeedFields && keys != []
           else ArgumentsFailBecause(keys, FieldNames(shape), FieldCount(shape), explicit, error)
  {
    hide Pieces, AllWellFormed, Keys, ArgumentsFailBecause, AllArguments, Spell, Rewrite;
    if Pieces(message, isIdent).Ok? {
      var pieces := Pieces(message, isIdent).value;
      PiecesAreTheGrammar(message, pieces, isIdent);
      if !shape.Unit? {
        ArgumentsRefused(Keys(pieces, isIdent), FieldNames(shape), FieldCount(shape), explicit, error);
      }
    }
  }

  /** Explicit arguments are left over, or some placeholder is the first that shows no field. */
  ghost predicate ArgumentsFailBecause(keys: seq<Key>, names: seq<string>, count: nat, explicit: seq<FormatArg>, error: DisplayError) {
    if error == UnusedArguments then explicit != [] && |keys| < |explicit|
    else exists k | 0 <= k < |keys| ::
      && FailsAt(keys, k, names, count, explicit, error)
      && forall j | 0 <= j < k :: Argument(keys[j], ImplicitBefore(keys, j), names, count, explicit).Ok?
  }

  lemma ArgumentsRefused(keys: seq<Key>, names: seq<string>, count: nat, explicit: seq<FormatArg>, error: DisplayError)
    requires AllArguments(keys, names, count, explicit) == Err(error)
    ensures ArgumentsFailBecause(keys, names, count, explicit, error)
  {
    hide Argument, Arguments;
    if Arguments(keys, 0, names, count, explicit).Err? {
      var k := FirstFailure(keys, 0, names, count, explicit);
      NoLeftOvers(keys[k], ImplicitBefore(keys, k), names, count, explicit);
      assert FailsAt(keys, k, names, count, explicit, error);
    } else {
      EnoughArguments(keys, 0, names, count, explicit);
    }
  }

  /** How many of the keys before this one are implicit. */
  function ImplicitBefore(keys: seq<Key>, k: nat): nat
    requires k <= |keys|
  {
    if k == 0 then 0 else (if keys[0] == Implicit then 1 else 0) + ImplicitBefore(keys[1..], k - 1)
  }

  ghost predicate FailsAt(keys: seq<Key>, k: nat, names: seq<string>, count: nat, explicit: seq<FormatArg>, error: DisplayError)
    requires k < |keys|
  {
    Argument(keys[k], ImplicitBefore(keys, k), names, count, explicit) == Err(error)
  }

  lemma {:induction false} FirstFailure(keys: seq<Key>, implicit: nat, names: seq<string>, count: nat, explicit: seq<FormatArg>)
    returns (k: nat)
    requires Arguments(keys, implicit, names, count, explicit).Err?
    ensures k < |keys|
    ensures Argument(keys[k], implicit + ImplicitBefore(keys, k), names, count, explicit) ==
            Err(Arguments(keys, implicit, names, count, explicit).error)
    ensures forall j | 0 <= j < k :: Argument(keys[j], implicit + ImplicitBefore(keys, j), names, count, explicit).Ok?
    decreases keys
  {
    hide Argument;
    k := 0;
    if Argument(keys[0], implicit, names, count, explicit).Ok? {
      var rest := FirstFailure(keys[1..], After(keys[0], implicit), names, count, explicit);
      k := rest + 1;
      forall j | 0 <= j < k
        ensures Argument(keys[j], implicit + ImplicitBefore(keys, j), names, count, explicit).Ok?
      {
        if j > 0 {
          assert keys[1..][j - 1] == keys[j];
        }
      }
    }
  }

  lemma NoLeftOvers(key: Key, implicit: nat, names: seq<string>, count: nat, explicit: seq<FormatArg>)
    ensures Argument(key, implicit, names, count, explicit) != Err(UnusedArguments)
  {}

  /** With explicit arguments each key takes one of them. */
  lemma {:induction false} EnoughArguments(keys: seq<Key>, implicit: nat, names: seq<string>, count: nat, explicit: seq<FormatArg>)
    requires explicit != [] && implicit <= |explicit| && Arguments(keys, implicit, names, count, explicit).Ok?
    ensures implicit + |keys| <= |explicit|
    decreases keys
  {
    if keys != [] {
      EnoughArguments(keys[1..], After(keys[0], implicit), names, count, explicit);
    }
  }

  lemma FirstIsIndexOf(name: string, names: seq<string>, field: nat)
    ensures Names(name, names, field) <==> field == IndexOf(names, name) && field < |names|
  {}

  lemma SaidExactly(inner: string, implicit: nat, names: seq<string>, count: nat, explicit: seq<FormatArg>, isIdent: string -> bool)
    requires ParseKey(inner, isIdent).Ok?
    ensures forall key, spec, field: nat ::
              Says(inner, key, spec, implicit, names, count, explicit, field, isIdent) <==>
              ParseKey(inner, isIdent) == Ok((key, spec)) && Argument(key, implicit, names, count, explicit) == Ok(field)
  {
    hide ParseKey, Means, Shows, Argument;
    forall key, spec, field: nat
      ensures Says(inner, key, spec, implicit, names, count, explicit, field, isIdent) <==>
              ParseKey(inner, isIdent) == Ok((key, spec)) && Argument(key, implicit, names, count, explicit) == Ok(field)
    {
      ParsesExactlyWhatItMeans(inner, key, spec, isIdent);
      ArgumentIsShown(key, implicit, names, count, explicit, field);
    }
  }

  function Before(text: string, rest: Option<string>): Option<string> {
    if rest.None? then None else Some(text + rest.value)
  }

  /** What `write!` makes of a format string without keys: each placeholder shows the next argument, and no
      argument may be left over. */
  function Positional<V>(pieces: seq<Piece>, values: seq<V>, show: (string, V) -> string): Option<string>
    decreases pieces
  {
    if pieces == [] then if values == [] then Some("") else None
    else
      match pieces[0]
      case OpenBrace => Before("{", Positional(pieces[1..], values, show))
      case CloseBrace => Before("}", Positional(pieces[1..], values, show))
      case Text(c) => Before([c], Positional(pieces[1..], values, show))
      case Hole(spec) =>
        if values == [] then None else Before(show(spec, values[0]), Positional(pieces[1..], values[1..], show))
  }

  function Holes(pieces: seq<Piece>): nat {
    if pieces == [] then 0 else (if pieces[0].Hole? then 1 else 0) + Holes(pieces[1..])
  }

  function Chosen<V>(args: seq<nat>, fields: seq<V>): (values: seq<V>)
    requires forall k | 0 <= k < |args| :: args[k] < |fields|
    ensures |values| == |args| && forall k | 0 <= k < |args| :: values[k] == fields[args[k]]
  {
    seq(|args|, k requires 0 <= k < |args| => fields[args[k]])
  }

  lemma SpecHasNoKey(inner: string, isIdent: string -> bool)
    requires NoBraces(inner)
    ensures
      var spec := inner[ColonAt(inner)..];
      WellFormed(Hole(spec), isIdent) && ParseKey(spec, isIdent) == Ok((Implicit, spec))
  {
    var spec := inner[ColonAt(inner)..];
    assert ColonAt(spec) == 0;
    assert spec[..0] == "";
  }

  lemma RewriteIsWellFormed(pieces: seq<Piece>, isIdent: string -> bool)
    requires AllWellFormed(pieces, isIdent)
    ensures AllWellFormed(Rewrite(pieces), isIdent)
    ensures Rewrite(Rewrite(pieces)) == Rewrite(pieces)
  {
    var out := Rewrite(pieces);
    forall i | 0 <= i < |out|
      ensures WellFormed(out[i], isIdent) && RewritePiece(out[i]) == out[i]
    {
      assert WellFormed(pieces[i], isIdent);
      if pieces[i].Hole? {
        SpecHasNoKey(pieces[i].inner, isIdent);
        SpecOf(out[i].inner, isIdent);
      }
    }
  }

  lemma {:induction false} KeysCount(pieces: seq<Piece>, isIdent: string -> bool)
    requires AllWellFormed(pieces, isIdent)
    ensures |Keys(pieces, isIdent)| == Holes(pieces)
  {
    if pieces != [] {
      KeysCount(pieces[1..], isIdent);
    }
  }

  lemma RewrittenKey(piece: Piece, isIdent: string -> bool)
    requires WellFormed(piece, isIdent)
    ensures WellFormed(RewritePiece(piece), isIdent) && RewritePiece(piece).Hole? == piece.Hole?
    ensures piece.Hole? ==> KeyOf(RewritePiece(piece), isIdent) == Implicit
  {
    if piece.Hole? {
      SpecHasNoKey(piece.inner, isIdent);
    }
  }

  lemma {:induction false} RewrittenKeys(pieces: seq<Piece>, isIdent: string -> bool)
    requires AllWellFormed(pieces, isIdent) && AllWellFormed(Rewrite(pieces), isIdent)
    ensures Holes(Rewrite(pieces)) == Holes(pieces)
    ensures forall k | 0 <= k < |Keys(Rewrite(pieces), isIdent)| :: Keys(Rewrite(pieces), isIdent)[k] == Implicit
  {
    hide ParseKey, ColonAt, KeyOf, WellFormed, RewritePiece;
    if pieces != [] {
      RewrittenKey(pieces[0], isIdent);
      assert Rewrite(pieces)[1..] == Rewrite(pieces[1..]);
      RewrittenKeys(pieces[1..], isIdent);
    }
  }

  /** Reading the rewritten string again gives it back unchanged, with as many placeholders as the message
      had and all of them implicit. */
  lemma RewritingIsIdempotent(message: string, isIdent: string -> bool)
    requires Rewritten(message, isIdent).Ok?
    ensures
      var (formatted, keys) := Rewritten(message, isIdent).value;
      var again := Rewritten(formatted, isIdent);
      && again.Ok? && again.value.0 == formatted
      && |again.value.1| == |keys| && forall k | 0 <= k < |keys| :: again.value.1[k] == Implicit
  {
    var pieces := Pieces(message, isIdent).value;
    PiecesAreTheGrammar(message, pieces, isIdent);
    RewriteIsWellFormed(pieces, isIdent);
    PiecesAreTheGrammar(Spell(Rewrite(pieces)), Rewrite(pieces), isIdent);
    RewrittenKeys(pieces, isIdent);
    KeysCount(pieces, isIdent);
    KeysCount(Rewrite(pieces), isIdent);
  }

  lemma {:induction false} ArgumentsInBounds(keys: seq<Key>, implicit: nat, names: seq<string>, count: nat, explicit: seq<FormatArg>)
    requires Arguments(keys, implicit, names, count, explicit).Ok?
    ensures
      var args := Arguments(keys, implicit, names, count, explicit).value;
      |args| == |keys| && forall k | 0 <= k < |args| :: args[k] < count
    decreases keys
  {
    if keys != [] {
      ArgumentsInBounds(keys[1..], After(keys[0], implicit), names, count, explicit);
    }
  }

  /** The meaning of the message is what the rewritten pieces say of the computed arguments, and one is
      defined exactly when the other is. */
  lemma {:induction false} MeaningIsPositional<V>(
      pieces: seq<Piece>, implicit: nat, names: seq<string>, fields: seq<V>, explicit: seq<FormatArg>,
      show: (string, V) -> string, isIdent: string -> bool)
    requires AllWellFormed(pieces, isIdent)
    ensures
      var meaning := Meaning(pieces, implicit, names, fields, explicit, show, isIdent);
      match Arguments(Keys(pieces, isIdent), implicit, names, |fields|, explicit)
      case Err(_) => meaning == None
      case Ok(args) =>
        && (forall k | 0 <= k < |args| :: args[k] < |fields|)
        && meaning.Some? && Positional(Rewrite(pieces), Chosen(args, fields), show) == meaning
    decreases pieces
  {
    hide Argument, ParseKey, ColonAt, Says;
    var keys := Keys(pieces, isIdent);
    if pieces != [] {
      assert WellFormed(pieces[0], isIdent);
      assert Rewrite(pieces)[1..] == Rewrite(pieces[1..]);
      if pieces[0].Hole? {
        var key := KeyOf(pieces[0], isIdent);
        SpecOf(pieces[0].inner, isIdent);
        assert keys[0] == key && keys[1..] == Keys(pieces[1..], isIdent);
        MeaningIsPositional(pieces[1..], After(key, implicit), names, fields, explicit, show, isIdent);
        SaidExactly(pieces[0].inner, implicit, names, |fields|, explicit, isIdent);
        var all := Arguments(keys, implicit, names, |fields|, explicit);
        if all.Ok? {
          ArgumentsInBounds(keys, implicit, names, |fields|, explicit);
          assert all.value[0] == Argument(key, implicit, names, |fields|, explicit).value < |fields|;
          assert Chosen(all.value, fields)[1..] == Chosen(all.value[1..], fields);
        }
      } else {
        assert keys == Keys(pieces[1..], isIdent);
        MeaningIsPositional(pieces[1..], implicit, names, fields, explicit, show, isIdent);
      }
    }
  }

  /** For every accepted message and every list of fields: the arguments are as many as the placeholders of
      the rewritten string, and that string with those arguments renders the text the message stands for. */
  lemma DisplayPreservesMeaning<V>(
      shape: Shape, message: string, fields: seq<V>, explicit: seq<FormatArg>,
      show: (string, V) -> string, isIdent: string -> bool)
    requires |fields| == FieldCount(shape) && Arm(shape, message, explicit, isIdent).Ok?
    ensures
      var (formatted, args) := Arm(shape, message, explicit, isIdent).value;
      var before, after := Pieces(message, isIdent), Pieces(formatted, isIdent);
      && before.Ok? && after.Ok?
      && (forall k | 0 <= k < |args| :: args[k] < |fields|)
      && |args| == Holes(after.value)
      && AllWellFormed(before.value, isIdent)
      && var text := Positional(after.value, Chosen(args, fields), show);
         text.Some? && text == Meaning(before.value, 0, FieldNames(shape), fields, explicit, show, isIdent)
  {
    var pieces := Pieces(message, isIdent).value;
    PiecesAreTheGrammar(message, pieces, isIdent);
    RewriteIsWellFormed(pieces, isIdent);
    PiecesAreTheGrammar(Spell(Rewrite(pieces)), Rewrite(pieces), isIdent);
    var keys := Keys(pieces, isIdent);
    KeysCount(pieces, isIdent);
    RewrittenKeys(pieces, isIdent);
    MeaningIsPositional(pieces, 0, FieldNames(shape), fields, explicit, show, isIdent);
    if keys != [] {
      ArgumentsInBounds(keys, 0, FieldNames(shape), |fields|, explicit);
    }
  }

  /** A message is accepted exactly when it follows the grammar, every placeholder has a field to show, and,
      unless the variant is a unit, there are either no explicit arguments or one for each placeholder. */
  lemma AcceptedExactly<V>(
      shape: Shape, message: string, fields: seq<V>, explicit: seq<FormatArg>,
      show: (string, V) -> string, isIdent: string -> bool)
    requires |fields| == FieldCount(shape)
    ensures Arm(shape, message, explicit, isIdent).Ok? <==>
            Pieces(message, isIdent).Ok?
            && var pieces := Pieces(message, isIdent).value;
               && AllWellFormed(pieces, isIdent)
               && Meaning(pieces, 0, FieldNames(shape), fields, explicit, show, isIdent).Some?
               && (shape.Unit? || explicit == [] || |explicit| == Holes(pieces))
  {
    if Pieces(message, isIdent).Ok? {
      var pieces := Pieces(message, isIdent).value;
      PiecesAreTheGrammar(message, pieces, isIdent);
      KeysCount(pieces, isIdent);
      MeaningIsPositional(pieces, 0, FieldNames(shape), fields, explicit, show, isIdent);
      NoFieldsNoArguments(Keys(pieces, isIdent), FieldNames(shape), explicit);
    }
  }

  lemma NoFieldsNoArguments(keys: seq<Key>, names: seq<string>, explicit: seq<FormatArg>)
    ensures Arguments(keys, 0, names, 0, explicit).Ok? <==> keys == []
  {}
}
