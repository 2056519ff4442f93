/** `parseCSVParam`: reading a comma-separated query parameter into its list of tokens. */
module Csv {
  import opened Text

  /** A query-string value as the web framework hands it over: absent, a single
      string, or the list of strings given when the key is repeated. */
  datatype QueryValue = Missing | One(text: string) | Many(items: seq<string>)

  /** What `parseCSVParam` can return an element of: non-empty, comma-free, trimmed. */
  predicate IsToken(t: string) {
    t != [] && ',' !in t && IsTrimmed(t)
  }

  /** Trims every segment and drops those that become empty, keeping the order. */
  function CleanSegments(segments: seq<string>): (tokens: seq<string>)
    requires forall i :: 0 <= i < |segments| ==> ',' !in segments[i]
    ensures |tokens| <= |segments|
    ensures forall i :: 0 <= i < |tokens| ==> IsToken(tokens[i])
    ensures |segments| == 1 ==> tokens == (if Trim(segments[0]) == [] then [] else [Trim(segments[0])])
    decreases |segments|
  {
    if segments == [] then []
    else CleanSegment(segments[0]) + CleanSegments(segments[1..])
  }

  /** One segment's contribution: its trimmed text, unless that is empty. */
  function CleanSegment(segment: string): (tokens: seq<string>)
    requires ',' !in segment
    ensures |tokens| <= 1
    ensures forall i :: 0 <= i < |tokens| ==> IsToken(tokens[i])
    ensures tokens == (if Trim(segment) == [] then [] else [Trim(segment)])
  {
    var t := Trim(segment);
    if t == [] then [] else [t]
  }

  /** The tokens of one comma-separated string. */
  function Tokens(s: string): (tokens: seq<string>)
    ensures forall i :: 0 <= i < |tokens| ==> IsToken(tokens[i])
  {
    CleanSegments(Split(s, ','))
  }

  function ParseCSVParam(value: QueryValue): (tokens: seq<string>)
    ensures forall i :: 0 <= i < |tokens| ==> IsToken(tokens[i])
    ensures value == Missing || value == One("") ==> tokens == []
  {
    match value
    case Missing => []
    case One(s) => if s == [] then [] else Tokens(s)
    case Many(xs) => Tokens(Join(xs, ','))
  }

  lemma {:induction false} CleanAppend(a: seq<string>, b: seq<string>)
    requires forall i :: 0 <= i < |a| ==> ',' !in a[i]
    requires forall i :: 0 <= i < |b| ==> ',' !in b[i]
    ensures CleanSegments(a + b) == CleanSegments(a) + CleanSegments(b)
    decreases |a|
  {
    if a != [] {
      assert (a + b)[1..] == a[1..] + b;
      CleanAppend(a[1..], b);
    } else {
      assert a + b == b;
    }
  }

  lemma {:induction false} CleanTokens(tokens: seq<string>)
    requires forall i :: 0 <= i < |tokens| ==> ',' !in tokens[i] && IsToken(tokens[i])
    ensures CleanSegments(tokens) == tokens
    decreases |tokens|
  {
    if tokens != [] {
      CleanTokens(tokens[1..]);
      assert tokens == [tokens[0]] + tokens[1..];
    }
  }

  /** The empty string has no tokens, so the early return for `""` changes nothing. */
  lemma ParseOneIsTokens(s: string)
    ensures ParseCSVParam(One(s)) == Tokens(s)
  {
    if s == [] {
      assert Split(s, ',') == [[]];
    }
  }

  /** A comma-free piece yields its trimmed text, or nothing when that is empty. */
  lemma ParseSegment(s: string)
    requires ',' !in s
    ensures ParseCSVParam(One(s)) == (if Trim(s) == [] then [] else [Trim(s)])
  {
    SplitNoSeparator(s, ',');
    ParseOneIsTokens(s);
  }

  /** Joining canonical tokens with commas and parsing the result gives them back. */
  lemma ParseJoinRoundTrip(tokens: seq<string>)
    requires forall i :: 0 <= i < |tokens| ==> IsToken(tokens[i])
    ensures ParseCSVParam(One(Join(tokens, ','))) == tokens
  {
    if tokens != [] {
      SplitJoin(tokens, ',');
      CleanTokens(tokens);
      ParseOneIsTokens(Join(tokens, ','));
    }
  }

  /** Tokens before a comma come first, tokens after it follow, in order. */
  lemma ParseConcat(a: string, b: string)
    ensures ParseCSVParam(One(a + "," + b)) == ParseCSVParam(One(a)) + ParseCSVParam(One(b))
  {
    SplitAppend(a, b, ',');
    CleanAppend(Split(a, ','), Split(b, ','));
    ParseOneIsTokens(a);
    ParseOneIsTokens(b);
    ParseOneIsTokens(a + "," + b);
  }

  /** The tokens of each string of `xs`, one string after the other. */
  function TokensOfEach(xs: seq<string>): seq<string>
    decreases |xs|
  {
    if xs == [] then [] else ParseCSVParam(One(xs[0])) + TokensOfEach(xs[1..])
  }

  /** A repeated key is read as its values joined by commas: their tokens, in order. */
  lemma {:induction false} ParseMany(xs: seq<string>)
    ensures ParseCSVParam(Many(xs)) == TokensOfEach(xs)
    decreases |xs|
  {
    if xs == [] {
      assert Split([], ',') == [[]];
    } else if |xs| == 1 {
      ParseOneIsTokens(xs[0]);
      assert TokensOfEach(xs[1..]) == [];
    } else {
      ParseMany(xs[1..]);
      var rest := Join(xs[1..], ',');
      ParseConcat(xs[0], rest);
      ParseOneIsTokens(rest);
      assert Join(xs, ',') == xs[0] + "," + rest;
      ParseOneIsTokens(xs[0] + "," + rest);
    }
  }
}
