/** `XSStrikeEngine.parse_params`: a query string or POST body becomes an
    insertion-ordered dictionary from parameter names to values. */
module Params {
  import opened Wrappers
  import opened Seqs
  import opened Text
  import opened OrderedDict

  /** One `&`-separated segment: cut at its first `=` (Python's
      `pair.split('=', 1)`), or the whole segment with an empty value when it
      holds no `=`. The value may itself contain `=`. */
  function SplitPair(segment: string): (kv: (string, string))
    ensures '=' in segment ==> '=' !in kv.0 && kv.0 + "=" + kv.1 == segment
    ensures '=' !in segment ==> kv == (segment, "")
  {
    if '=' in segment then
      var i := FirstIndex(segment, '=');
      assert segment == segment[..i] + "=" + segment[i + 1..];
      (segment[..i], segment[i + 1..])
    else
      (segment, "")
  }

  /** The cut is at the first `=`: any `=`-free key followed by `=` and
      any value is split back into that key and value. */
  lemma SplitPairAtFirst(key: string, value: string)
    requires '=' !in key
    ensures SplitPair(key + "=" + value) == (key, value)
  {
    var segment := key + "=" + value;
    assert segment[|key|] == '=';
    assert segment[..|key|] == key;
    assert FirstIndex(segment, '=') == |key|;
    assert segment[|key| + 1..] == value;
  }

  /** The assignments `params[key] = value` the loop performs, in order. */
  function Assignments(query: string): (pairs: seq<(string, string)>)
  {
    var segments := Split(query, '&');
    seq(|segments|, i requires 0 <= i < |segments| => SplitPair(segments[i]))
  }

  function ParseParams(query: string): (params: seq<(string, string)>)
    ensures query == "" ==> params == []
    ensures Distinct(Keys(params))
    ensures |params| <= |Split(query, '&')|
  {
    if query == "" then []
    else
      FromPairsKeyOrder(Assignments(query));
      FromPairsLength(Assignments(query));
      FromPairs(Assignments(query))
  }

  /** Parameter names come out once each, in the order of their first
      occurrence in the string. */
  lemma ParseParamsKeyOrder(query: string)
    requires query != ""
    ensures FirstOccurrenceOrder(Keys(ParseParams(query)), Keys(Assignments(query)))
  {
    FromPairsKeyOrder(Assignments(query));
  }

  /** A name is present exactly when the string is non-empty and some segment
      assigns it. */
  lemma ParseParamsPresent(query: string, key: string)
    ensures Get(ParseParams(query), key).Some? <==> query != "" && key in Keys(Assignments(query))
  {
    if query != "" {
      FromPairsPresent(Assignments(query), key);
    }
  }

  /** A repeated name keeps the value of its last segment. */
  lemma ParseParamsLastWins(query: string, key: string, i: nat)
    requires query != ""
    requires LastBinding(Assignments(query), key, i)
    ensures Get(ParseParams(query), key) == Some(Assignments(query)[i].1)
  {
    FromPairsLastWins(Assignments(query), key, i);
  }

  /** `key=value`. */
  function Segment(kv: (string, string)): string
  {
    kv.0 + "=" + kv.1
  }

  /** `k1=v1&k2=v2&...` rendered from a list of name/value pairs. */
  function QueryString(pairs: seq<(string, string)>): string
  {
    Join(seq(|pairs|, i requires 0 <= i < |pairs| => Segment(pairs[i])), '&')
  }

  /** Names free of `=` and `&`, values free of `&`, no name twice. */
  predicate WellFormed(pairs: seq<(string, string)>)
  {
    && Distinct(Keys(pairs))
    && forall i :: 0 <= i < |pairs| ==> '=' !in pairs[i].0 && '&' !in pairs[i].0 && '&' !in pairs[i].1
  }

  /** Well-formed pairs are a fixed point of rendering then parsing. */
  lemma ParseQueryString(pairs: seq<(string, string)>)
    requires WellFormed(pairs)
    ensures ParseParams(QueryString(pairs)) == pairs
  {
    if |pairs| == 0 {
      assert QueryString(pairs) == "";
    } else {
      ParseNonEmptyQueryString(pairs);
    }
  }

  lemma ParseNonEmptyQueryString(pairs: seq<(string, string)>)
    requires |pairs| >= 1
    requires WellFormed(pairs)
    ensures ParseParams(QueryString(pairs)) == pairs
  {
    var segments := seq(|pairs|, i requires 0 <= i < |pairs| => Segment(pairs[i]));
    var query := QueryString(pairs);
    forall i | 0 <= i < |segments|
      ensures '&' !in segments[i]
    {
      assert segments[i] == pairs[i].0 + "=" + pairs[i].1;
    }
    SplitUnique(query, '&', segments);
    assert query != "" by {
      assert '=' in segments[0];
    }
    AssignmentsOfSegments(query, pairs, segments);
    FromPairsDistinct(pairs);
  }

  lemma AssignmentsOfSegments(query: string, pairs: seq<(string, string)>, segments: seq<string>)
    requires WellFormed(pairs)
    requires |segments| == |pairs|
    requires forall i :: 0 <= i < |pairs| ==> segments[i] == Segment(pairs[i])
    requires Split(query, '&') == segments
    ensures Assignments(query) == pairs
  {
    forall i | 0 <= i < |pairs|
      ensures Assignments(query)[i] == pairs[i]
    {
      SplitPairAtFirst(pairs[i].0, pairs[i].1);
    }
  }
}
