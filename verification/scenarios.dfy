/** Worked examples: the scans and parses the engine's users run, with the
    results the code produces for them. */
module Scenarios {
  import opened Text
  import opened OrderedDict
  import opened Params
  import opened Reports
  import opened Detector
  import opened Scanner

  /** A repeated name keeps its first position and its last value; a value
      keeps every `=` after the first; a bare name gets the empty value. */
  lemma ParseRepeatedName()
    ensures ParseParams("a=1&b&a=2=3") == [("a", "2=3"), ("b", "")]
  {
    RepeatedNameAssignments();
    RepeatedNameFold();
  }

  lemma RepeatedNameSegments()
    ensures Split("a=1&b&a=2=3", '&') == ["a=1", "b", "a=2=3"]
  {
    var segments := ["a=1", "b", "a=2=3"];
    assert Join(segments, '&') == "a=1&b&a=2=3";
    SplitUnique("a=1&b&a=2=3", '&', segments);
  }

  lemma RepeatedNameAssignments()
    ensures Assignments("a=1&b&a=2=3") == [("a", "1"), ("b", ""), ("a", "2=3")]
  {
    RepeatedNameSegments();
    AssignmentsOf3("a=1&b&a=2=3", "a=1", "b", "a=2=3");
  }

  lemma AssignmentsOf3(query: string, x: string, y: string, z: string)
    requires x == "a=1" && y == "b" && z == "a=2=3"
    requires Split(query, '&') == [x, y, z]
    ensures Assignments(query) == [("a", "1"), ("b", ""), ("a", "2=3")]
  {
    SplitPairs3(x, y, z);
    AssignmentsOfSplit(query, [("a", "1"), ("b", ""), ("a", "2=3")]);
  }

  lemma SplitPairs3(x: string, y: string, z: string)
    requires x == "a=1" && y == "b" && z == "a=2=3"
    ensures SplitPair(x) == ("a", "1") && SplitPair(y) == ("b", "") && SplitPair(z) == ("a", "2=3")
  {
    SplitPairAtFirst("a", "1");
    assert "a" + "=" + "1" == x;
    SplitPairAtFirst("a", "2=3");
    assert "a" + "=" + "2=3" == z;
    assert y[0] != '=';
  }

  /** `Assignments` read off a known split. */
  lemma AssignmentsOfSplit(query: string, pairs: seq<(string, string)>)
    requires |Split(query, '&')| == |pairs|
    requires forall i :: 0 <= i < |pairs| ==> SplitPair(Split(query, '&')[i]) == pairs[i]
    ensures Assignments(query) == pairs
  {
  }

  lemma RepeatedNameFold()
    ensures FromPairs([("a", "1"), ("b", ""), ("a", "2=3")]) == [("a", "2=3"), ("b", "")]
  {
    var pairs := [("a", "1"), ("b", ""), ("a", "2=3")];
    var one := [("a", "1")];
    assert FromPairs(one) == one by {
      assert one[..0] == [];
    }
    assert FromPairs(pairs[..2]) == [("a", "1"), ("b", "")] by {
      assert pairs[..2][..1] == one;
      PutAbsent(one, "b", "");
    }
  }

  /** A word written in lower case anywhere in the target is found by the
      case-insensitive test. */
  lemma {:induction false} FindsLowerWord(target: string, word: string, i: nat)
    requires forall k :: 0 <= k < |word| ==> !IsUpper(word[k])
    requires OccursAt(target, word, i)
    ensures Contains(Lower(target), word)
  {
    var t := Lower(target);
    assert t[i..i + |word|] == word by {
      forall k | 0 <= k < |word|
        ensures t[i + k] == word[k]
      {
        assert target[i + k] == word[k];
      }
    }
    assert OccursAt(t, word, i);
    ContainsIffOccurs(t, word);
  }

  /** A word with a character the text lacks does not occur in it. */
  lemma {:induction false} MissingCharacter(s: string, word: string, k: nat)
    requires k < |word| && word[k] !in s
    ensures !Contains(s, word)
  {
    ContainsIffOccurs(s, word);
    forall i
      ensures !OccursAt(s, word, i)
    {
      if OccursAt(s, word, i) {
        OccurrenceHas(s, word, i, k);
      }
    }
  }

  lemma OccurrenceHas(s: string, word: string, i: int, k: nat)
    requires OccursAt(s, word, i) && k < |word|
    ensures word[k] in s
  {
    assert s[i + k] == s[i..i + |word|][k];
  }

  /** Lower-casing changes nothing in a text without capitals. */
  lemma LowerOfLowercase(s: string)
    requires forall k :: 0 <= k < |s| ==> !IsUpper(s[k])
    ensures Lower(s) == s
  {
  }

  /** A single well-formed `name=value` string parses to its one pair. */
  lemma ParseOne(query: string, name: string, value: string)
    requires '=' !in name && '&' !in name && '&' !in value
    requires query == name + "=" + value
    ensures ParseParams(query) == [(name, value)]
  {
    var pairs := [(name, value)];
    assert QueryString(pairs) == query;
    ParseQueryString(pairs);
  }

  /** Two well-formed `name=value` assignments with distinct names parse to
      their two pairs, in order. */
  lemma ParseTwo(query: string, n1: string, v1: string, n2: string, v2: string)
    requires '=' !in n1 && '&' !in n1 && '&' !in v1
    requires '=' !in n2 && '&' !in n2 && '&' !in v2
    requires n1 != n2
    requires query == n1 + "=" + v1 + "&" + n2 + "=" + v2
    ensures ParseParams(query) == [(n1, v1), (n2, v2)]
  {
    var pairs := [(n1, v1), (n2, v2)];
    var segments := seq(|pairs|, i requires 0 <= i < |pairs| => Segment(pairs[i]));
    assert segments == [n1 + "=" + v1, n2 + "=" + v2];
    assert Join(segments, '&') == query by {
      assert segments[1..] == [n2 + "=" + v2];
    }
    assert Keys(pairs) == [n1, n2];
    ParseQueryString(pairs);
  }

  /** The `testphp.vulnweb.com` demonstration target is suspicious: its host
      contains `test`. */
  lemma VulnwebLooksVulnerable(target: string)
    requires |target| >= 11 && target[7..11] == "test"
    ensures LooksVulnerable(target)
  {
    FindsLowerWord(target, "test", 7);
  }

  /** An all-lower-case target without `s`, `d` or `v` is not suspicious. */
  lemma PlainLooksSafe(target: string)
    requires forall k :: 0 <= k < |target| ==> !IsUpper(target[k])
    requires 's' !in target && 'd' !in target && 'v' !in target
    ensures !LooksVulnerable(target)
  {
    LowerOfLowercase(target);
    MissingCharacter(target, "test", 2);
    MissingCharacter(target, "demo", 0);
    MissingCharacter(target, "vulnweb", 0);
  }

  /** Scanning `http://testphp.vulnweb.com/search.php?test=query` with no POST
      body: the query parameter `test` is reported with the first payload,
      and the whole catalog is counted as tested. */
  lemma VulnwebGetScan(config: ScanConfig, url: UrlParts)
    requires config == ScanConfig("http://testphp.vulnweb.com/search.php?test=query", "")
    requires url == UrlParts("http", "testphp.vulnweb.com", "/search.php", "test=query")
    ensures Scan(config, url).result == ScanResult([Finding("test", GET)], 20, 1)
  {
    TestphpPageLooksVulnerable(config.target);
    ParseSearchQuery(url.query);
    ExpectedOne(config.target, "test", GET);
  }

  /** Both pages of the `testphp.vulnweb.com` demo site look vulnerable. */
  lemma TestphpPageLooksVulnerable(t: string)
    requires t == "http://testphp.vulnweb.com/search.php?test=query" || t == "http://testphp.vulnweb.com/login.php"
    ensures LooksVulnerable(t)
  {
    assert t[7] == 't' && t[8] == 'e' && t[9] == 's' && t[10] == 't';
    VulnwebLooksVulnerable(t);
  }

  lemma ParseSearchQuery(query: string)
    requires query == "test=query"
    ensures ParseParams(query) == [("test", "query")]
    ensures Keys(ParseParams(query)) == ["test"]
  {
    ParseOne(query, "test", "query");
  }

  lemma ExpectedOne(target: string, a: string, verb: Method)
    requires LooksVulnerable(target)
    ensures Expected(target, [a], verb) == [Finding(a, verb)]
  {
  }

  /** Scanning `http://testphp.vulnweb.com/login.php` with the POST body
      `username=admin&password=test`: the URL has no query, and both body
      parameters are reported, in body order. */
  lemma VulnwebPostScan(config: ScanConfig, url: UrlParts)
    requires config == ScanConfig("http://testphp.vulnweb.com/login.php", "username=admin&password=test")
    requires url == UrlParts("http", "testphp.vulnweb.com", "/login.php", "")
    ensures Scan(config, url).result
         == ScanResult([Finding("username", POST), Finding("password", POST)], 40, 2)
  {
    TestphpPageLooksVulnerable(config.target);
    ParseLoginBody(config.paramData);
    ExpectedTwo(config.target, "username", "password", POST);
    var r := Scan(config, url).result;
    assert r.vulnerabilities == [Finding("username", POST), Finding("password", POST)];
  }

  lemma ExpectedTwo(target: string, a: string, b: string, verb: Method)
    requires LooksVulnerable(target)
    ensures Expected(target, [a, b], verb) == [Finding(a, verb), Finding(b, verb)]
  {
  }

  lemma ParseLoginBody(body: string)
    requires body == "username=admin&password=test"
    ensures Keys(ParseParams(body)) == ["username", "password"]
  {
    ParseTwo(body, "username", "admin", "password", "test");
  }

  /** Scanning `http://example.com/page?q=1&x=2`: nothing in the URL looks
      suspicious, so no parameter is reported, though both are counted. */
  lemma SafeGetScan(config: ScanConfig, url: UrlParts)
    requires config == ScanConfig("http://example.com/page?q=1&x=2", "")
    requires url == UrlParts("http", "example.com", "/page", "q=1&x=2")
    ensures Scan(config, url).result == ScanResult([], 40, 0)
  {
    ExamplePageLooksSafe(config.target);
    ParseSafeQuery(url.query);
  }

  lemma ExamplePageLooksSafe(t: string)
    requires t == "http://example.com/page?q=1&x=2"
    ensures !LooksVulnerable(t)
  {
    PlainLooksSafe(t);
  }

  lemma ParseSafeQuery(query: string)
    requires query == "q=1&x=2"
    ensures ParseParams(query) == [("q", "1"), ("x", "2")]
  {
    ParseTwo(query, "q", "1", "x", "2");
  }

  /** A target without a scheme is rejected before anything is parsed. */
  lemma NoSchemeScan(config: ScanConfig, url: UrlParts)
    requires config == ScanConfig("testphp.vulnweb.com/search.php?test=query", "")
    requires url == UrlParts("", "", "testphp.vulnweb.com/search.php", "test=query")
    ensures Scan(config, url).result == ScanResult([], 0, 0)
    ensures CountLevel(Scan(config, url).events, Error) == 1
  {
    assert Scan(config, url).events == Opening + [Event(Error, MissingScheme)];
    CountLevelAppend(Opening, [Event(Error, MissingScheme)], Error);
    CountLevelAbsent(Opening, Error);
  }
}
