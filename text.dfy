/** The string routines the resolvers use, and the two strings
    they derive from a request: the environment key and the Consul URI.

    Each function states its length facts; the lemmas after it say what the result is. */
module Text {

  /** `s.replacingOccurrences(of: target, with: replacement)` for one
      character replaced by one character. */
  function ReplacingOccurrences(s: string, target: char, replacement: char): (r: string)
    ensures |r| == |s|
  {
    if s == [] then []
    else [if s[0] == target then replacement else s[0]] + ReplacingOccurrences(s[1..], target, replacement)
  }

  /** Every `target` becomes `replacement`; every other character, and the
      length, stay as they are. */
  lemma {:induction false} ReplacingOccurrencesAt(s: string, target: char, replacement: char)
    ensures |ReplacingOccurrences(s, target, replacement)| == |s|
    ensures forall i :: 0 <= i < |s| ==>
      ReplacingOccurrences(s, target, replacement)[i] == if s[i] == target then replacement else s[i]
  {
    if s != [] {
      ReplacingOccurrencesAt(s[1..], target, replacement);
    }
  }

  /** `s.replacingOccurrences(of: target, with: "")`. */
  function Removing(s: string, target: char): (r: string)
    ensures |r| <= |s|
    ensures target !in r
  {
    if s == [] then []
    else if s[0] == target then Removing(s[1..], target)
    else [s[0]] + Removing(s[1..], target)
  }

  /** Every occurrence of `target` goes, wherever it stands, and every other
      character is kept as often as it occurs. */
  lemma {:induction false} RemovingCounts(s: string, target: char)
    ensures target !in Removing(s, target)
    ensures forall c :: c != target ==> multiset(Removing(s, target))[c] == multiset(s)[c]
    ensures |Removing(s, target)| == |s| - multiset(s)[target]
  {
    if s != [] {
      assert s == [s[0]] + s[1..];
      RemovingCounts(s[1..], target);
    }
  }

  /** Removing distributes over concatenation, so the characters kept stay
      in their order. */
  lemma {:induction false} RemovingAppend(a: string, b: string, target: char)
    ensures Removing(a + b, target) == Removing(a, target) + Removing(b, target)
  {
    if a == [] {
      assert a + b == b;
    } else {
      assert (a + b)[1..] == a[1..] + b;
      RemovingAppend(a[1..], b, target);
    }
  }

  /** A string is left alone exactly when it has no `target` in it. */
  lemma {:induction false} RemovingIsIdentity(s: string, target: char)
    ensures Removing(s, target) == s <==> target !in s
  {
    RemovingCounts(s, target);
    if s != [] && target !in s {
      RemovingIsIdentity(s[1..], target);
    }
  }

  /** Nothing is left exactly when the string is made of `target` alone. */
  lemma {:induction false} RemovingIsEmpty(s: string, target: char)
    ensures Removing(s, target) == [] <==> forall i :: 0 <= i < |s| ==> s[i] == target
  {
    if s != [] {
      RemovingIsEmpty(s[1..], target);
      assert forall i :: 1 <= i < |s| ==> s[i] == s[1..][i - 1];
    }
  }

  /** Interior newlines go as well as trailing ones. */
  lemma RemovingNewlineExamples()
    ensures Removing("1.2.3\n", '\n') == "1.2.3"
    ensures Removing("1.2\n.3", '\n') == "1.2.3"
    ensures Removing("\n\n", '\n') == ""
  {
  }

  /** Upper-casing of one character (ASCII letters only). */
  function UpperChar(c: char): char {
    if 'a' <= c <= 'z' then (c as int - 32) as char else c
  }

  /** `s.uppercased()`. */
  function Uppercased(s: string): (r: string)
    ensures |r| == |s|
  {
    if s == [] then [] else [UpperChar(s[0])] + Uppercased(s[1..])
  }

  /** Upper-casing works character by character and keeps the length. */
  lemma {:induction false} UppercasedAt(s: string)
    ensures |Uppercased(s)| == |s|
    ensures forall i :: 0 <= i < |s| ==> Uppercased(s)[i] == UpperChar(s[i])
  {
    if s != [] {
      UppercasedAt(s[1..]);
    }
  }

  /** `path.replacingOccurrences(of: "-", with: "_").uppercased()`: the name
      of the environment variable that backs a Consul key. */
  function EnvironmentKey(path: string): (key: string)
    ensures |key| == |path|
    ensures '-' !in key
  {
    var replaced := ReplacingOccurrences(path, '-', '_');
    ReplacingOccurrencesAt(path, '-', '_');
    UppercasedAt(replaced);
    Uppercased(replaced)
  }

  /** The key has the path's length; each `-` of the path is a `_` of the
      key, every other character is the path's, upper-cased; so the key has
      no `-` and no lower-case ASCII letter. */
  lemma EnvironmentKeyAt(path: string)
    ensures |EnvironmentKey(path)| == |path|
    ensures forall i :: 0 <= i < |path| ==>
      EnvironmentKey(path)[i] == if path[i] == '-' then '_' else UpperChar(path[i])
    ensures '-' !in EnvironmentKey(path)
    ensures forall i :: 0 <= i < |path| ==> !('a' <= EnvironmentKey(path)[i] <= 'z')
  {
    var replaced := ReplacingOccurrences(path, '-', '_');
    ReplacingOccurrencesAt(path, '-', '_');
    UppercasedAt(replaced);
  }

  /** Deriving a key from a key changes nothing. */
  lemma EnvironmentKeyIdempotent(path: string)
    ensures EnvironmentKey(EnvironmentKey(path)) == EnvironmentKey(path)
  {
    var key := EnvironmentKey(path);
    EnvironmentKeyAt(path);
    EnvironmentKeyAt(key);
    assert forall i :: 0 <= i < |key| ==> EnvironmentKey(key)[i] == key[i];
  }

  /** The key of a concatenation is the concatenation of the keys. */
  lemma EnvironmentKeyAppend(a: string, b: string)
    ensures EnvironmentKey(a + b) == EnvironmentKey(a) + EnvironmentKey(b)
  {
    EnvironmentKeyAt(a);
    EnvironmentKeyAt(b);
    EnvironmentKeyAt(a + b);
    assert forall i :: 0 <= i < |a| ==> (a + b)[i] == a[i];
    assert forall i :: |a| <= i < |a + b| ==> (a + b)[i] == b[i - |a|];
  }

  /** `-` becomes `_` and letters are upper-cased. */
  lemma EnvironmentKeyExamples()
    ensures EnvironmentKey("a-b-c") == "A_B_C"
  {
    ReplacingOccurrencesAt("a-b-c", '-', '_');
    assert ReplacingOccurrences("a-b-c", '-', '_') == "a_b_c";
    UppercasedAt("a_b_c");
  }

  /** Only `-` is rewritten: dots and slashes are kept. */
  lemma EnvironmentKeyKeepsSeparators()
    ensures EnvironmentKey("a.b/c-d") == "A.B/C_D"
  {
    ReplacingOccurrencesAt("a.b/c-d", '-', '_');
    assert ReplacingOccurrences("a.b/c-d", '-', '_') == "a.b/c_d";
    UppercasedAt("a.b/c_d");
  }

  /** `url + "/" + path`: the URI the KV GET is sent to. */
  function ConsulUri(url: string, path: string): (uri: string)
    ensures |uri| == |url| + 1 + |path|
    ensures uri[..|url|] == url && uri[|url|] == '/' && uri[|url| + 1..] == path
  {
    url + "/" + path
  }
}
