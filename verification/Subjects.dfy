/** Dot-delimited subjects: splitting, segment lookup and wildcard matching
    (nats-micro/src/subject.rs, repeated in nats-micro-testing/src/jetstream.rs). */
module Subjects {
  import opened Text

  const STAR: Str := [0x2A]
  const GT: Str := [0x3E]

  /** The tokens of a subject; an empty subject has one empty token. */
  function Split(s: Str): (tokens: seq<Str>)
    ensures tokens != []
  {
    if s == [] then [[]]
    else
      var rest := Split(s[1..]);
      if s[0] == DOT then [[]] + rest else [[s[0]] + rest[0]] + rest[1..]
  }

  function Join(tokens: seq<Str>): Str
    requires tokens != []
  {
    if |tokens| == 1 then tokens[0] else tokens[0] + [DOT] + Join(tokens[1..])
  }

  ghost predicate DotFree(tokens: seq<Str>) {
    forall i | 0 <= i < |tokens| :: DOT !in tokens[i]
  }

  lemma {:induction false} SplitOne(s: Str)
    requires DOT !in s
    ensures Split(s) == [s]
  {
    if s != [] {
      SplitOne(s[1..]);
      assert s == [s[0]] + s[1..];
    }
  }

  lemma {:induction false} SplitAtDot(a: Str, b: Str)
    requires DOT !in a
    ensures Split(a + [DOT] + b) == [a] + Split(b)
  {
    var s := a + [DOT] + b;
    if a == [] {
      assert s[1..] == b;
    } else {
      SplitAtDot(a[1..], b);
      assert s[1..] == a[1..] + [DOT] + b;
      assert a == [a[0]] + a[1..];
    }
  }

  lemma {:induction false} SplitDotFree(s: Str)
    ensures DotFree(Split(s))
  {
    if s != [] {
      SplitDotFree(s[1..]);
    }
  }

  lemma {:induction false} JoinPrepend(prefix: Str, tokens: seq<Str>)
    requires tokens != []
    ensures Join([prefix + tokens[0]] + tokens[1..]) == prefix + Join(tokens)
  {
    assert ([prefix + tokens[0]] + tokens[1..])[1..] == tokens[1..];
  }

  /** Splitting loses nothing. */
  lemma {:induction false} JoinSplit(s: Str)
    ensures Join(Split(s)) == s
  {
    if s != [] {
      var rest := Split(s[1..]);
      JoinSplit(s[1..]);
      if s[0] == DOT {
        assert Split(s)[0] == [] && Split(s)[1..] == rest;
        assert Join(Split(s)) == [DOT] + s[1..];
      } else {
        JoinPrepend([s[0]], rest);
      }
    }
  }

  /** Splitting is the inverse of joining dot-free tokens. */
  lemma {:induction false} SplitJoin(tokens: seq<Str>)
    requires tokens != [] && DotFree(tokens)
    ensures Split(Join(tokens)) == tokens
  {
    if |tokens| == 1 {
      SplitOne(tokens[0]);
    } else {
      SplitAtDot(tokens[0], Join(tokens[1..]));
      SplitJoin(tokens[1..]);
      assert tokens == [tokens[0]] + tokens[1..];
    }
  }

  /** Where a left-to-right scan of the subject stands: `current` tokens lie before `start`, and
      `start..index` is the part of the next one already seen. */
  ghost predicate Scanning(subject: Str, start: nat, current: nat, index: nat) {
    && start <= index <= |subject|
    && current < |Split(subject)|
    && Split(subject)[current..] == Split(subject[start..])
    && DOT !in subject[start..index]
  }

  lemma WholeSubject(subject: Str)
    ensures Scanning(subject, 0, 0, 0)
  {
    assert subject[0..] == subject && Split(subject)[0..] == Split(subject);
  }

  lemma ScanDot(subject: Str, start: nat, current: nat, index: nat)
    requires Scanning(subject, start, current, index) && index < |subject| && subject[index] == DOT
    ensures Split(subject)[current] == subject[start..index]
    ensures current + 1 < |Split(subject)| && Scanning(subject, index + 1, current + 1, index + 1)
  {
    hide Split;
    var tokens, seen, tail := Split(subject), subject[start..index], subject[index + 1..];
    assert subject[start..] == seen + [DOT] + tail;
    SplitAtDot(seen, tail);
    assert tokens[current..] == [seen] + Split(tail);
    DropOne(tokens, current);
  }

  lemma ScanByte(subject: Str, start: nat, current: nat, index: nat)
    requires Scanning(subject, start, current, index) && index < |subject| && subject[index] != DOT
    ensures Scanning(subject, start, current, index + 1)
  {
    assert subject[start..index + 1] == subject[start..index] + [subject[index]];
  }

  lemma ScanEnd(subject: Str, start: nat, current: nat)
    requires Scanning(subject, start, current, |subject|)
    ensures current + 1 == |Split(subject)| && Split(subject)[current] == subject[start..|subject|]
  {
    assert subject[start..|subject|] == subject[start..];
    SplitOne(subject[start..]);
    assert Split(subject)[current] == Split(subject)[current..][0];
  }

  /** `segment`: the token at an index of the dot split, found in one scan of the bytes. */
  method Segment(subject: Str, wanted: nat) returns (r: Option<Str>)
    ensures r == if wanted < |Split(subject)| then Some(Split(subject)[wanted]) else None
  {
    var segmentStart, current, index := 0, 0, 0;
    hide Scanning, Split;
    assert Scanning(subject, 0, 0, 0) by {
      WholeSubject(subject);
    }
    while index <= |subject|
      invariant 0 <= segmentStart && 0 <= current <= wanted && 0 <= index <= |subject| + 1
      invariant index <= |subject| ==>
                  segmentStart <= index && current < |Split(subject)| && Scanning(subject, segmentStart, current, index)
      invariant index == |subject| + 1 ==> current == |Split(subject)|
    {
      if index == |subject| {
        ScanEnd(subject, segmentStart, current);
      } else if subject[index] == DOT {
        ScanDot(subject, segmentStart, current, index);
      } else {
        ScanByte(subject, segmentStart, current, index);
      }
      if index == |subject| || subject[index] == DOT {
        if current == wanted {
          return Some(subject[segmentStart..index]);
        }
        current := current + 1;
        segmentStart := index + 1;
      }
      index := index + 1;
    }
    return None;
  }

  predicate TokenMatches(pattern: Str, token: Str) {
    pattern == STAR || pattern == token
  }

  /** The meaning of a wildcard pattern, stated token by token: `*` stands for one token, a final `>`
      for one or more, and a `>` that is not final matches nothing. */
  ghost predicate Matches(pattern: seq<Str>, subject: seq<Str>)
    requires pattern != []
  {
    var last := |pattern| - 1;
    && (forall i | 0 <= i < last :: pattern[i] != GT)
    && (forall i | 0 <= i < last && i < |subject| :: TokenMatches(pattern[i], subject[i]))
    && if pattern[last] == GT then |subject| >= |pattern|
       else |subject| == |pattern| && TokenMatches(pattern[last], subject[last])
  }

  /** `subject_matches`: two iterators advanced together. */
  method SubjectMatches(pattern: Str, subject: Str) returns (matched: bool)
    ensures matched <==> Matches(Split(pattern), Split(subject))
  {
    var patterns, tokens := Split(pattern), Split(subject);
    var i := 0;
    while true
      invariant 0 <= i <= |patterns| && i <= |tokens|
      invariant forall j | 0 <= j < i :: patterns[j] != GT && TokenMatches(patterns[j], tokens[j])
      decreases |patterns| - i
    {
      if i < |patterns| && i < |tokens| && patterns[i] == GT {
        return i + 1 == |patterns|;
      } else if i < |patterns| && i < |tokens| && patterns[i] == STAR {
      } else if i < |patterns| && i < |tokens| && patterns[i] == tokens[i] {
      } else if i == |patterns| && i == |tokens| {
        return true;
      } else {
        return false;
      }
      i := i + 1;
    }
  }

  lemma LiteralTokensMatch(patterns: seq<Str>, tokens: seq<Str>)
    requires patterns != [] && forall i | 0 <= i < |patterns| :: patterns[i] != STAR && patterns[i] != GT
    ensures Matches(patterns, tokens) <==> patterns == tokens
  {
    if Matches(patterns, tokens) {
      assert forall i | 0 <= i < |patterns| :: patterns[i] == tokens[i];
    }
  }

  /** A pattern without wildcard tokens accepts exactly itself. */
  lemma LiteralPatternMatchesOnlyItself(pattern: Str, subject: Str)
    requires STAR !in Split(pattern) && GT !in Split(pattern)
    ensures Matches(Split(pattern), Split(subject)) <==> pattern == subject
  {
    hide Matches;
    LiteralTokensMatch(Split(pattern), Split(subject));
    JoinSplit(pattern);
    JoinSplit(subject);
  }

  /** A final `>` accepts every extension by at least one token, and nothing shorter. */
  lemma TailWildcard(prefix: seq<Str>, subject: seq<Str>)
    requires GT !in prefix
    ensures Matches(prefix + [GT], subject) <==>
              |prefix| < |subject| && forall i | 0 <= i < |prefix| :: TokenMatches(prefix[i], subject[i])
  {
    var pattern := prefix + [GT];
    assert forall i | 0 <= i < |prefix| :: pattern[i] == prefix[i] && prefix[i] in prefix;
  }
}
