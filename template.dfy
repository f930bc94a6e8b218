/**
 * The template substitution: str::replace of the marker "{{content}}",
 * which scans left to right and replaces every non-overlapping occurrence.
 */
module Template {

  const Marker: string := "{{content}}"

  /** pattern occurs in s starting at index i. */
  predicate OccursAt(s: string, pattern: string, i: int) {
    0 <= i && i + |pattern| <= |s| && s[i..i + |pattern|] == pattern
  }

  /** str::replace: every occurrence of pattern, found left to right without overlap, replaced. */
  function ReplaceAll(s: string, pattern: string, replacement: string): (r: string)
    requires pattern != ""
    ensures |replacement| <= |pattern| ==> |r| <= |s|
    ensures |replacement| >= |pattern| ==> |r| >= |s|
    decreases |s|
  {
    if |s| < |pattern| then s
    else if s[..|pattern|] == pattern then replacement + ReplaceAll(s[|pattern|..], pattern, replacement)
    else [s[0]] + ReplaceAll(s[1..], pattern, replacement)
  }

  /** The template with every marker replaced by body. */
  function Substitute(template: string, body: string): string {
    ReplaceAll(template, Marker, body)
  }

  /** Dropping the first character shifts every occurrence one place left. */
  lemma OccursAtTail(s: string, pattern: string, i: nat)
    requires |s| > 0
    ensures OccursAt(s[1..], pattern, i) <==> OccursAt(s, pattern, i + 1)
  {
    if i + |pattern| <= |s[1..]| {
      assert s[1..][i..i + |pattern|] == s[i + 1..i + 1 + |pattern|];
    }
  }

  /** A string in which the pattern does not occur comes back unchanged. */
  lemma {:induction false} ReplaceAbsent(s: string, pattern: string, replacement: string)
    requires pattern != ""
    requires forall i :: !OccursAt(s, pattern, i)
    ensures ReplaceAll(s, pattern, replacement) == s
  {
    if |s| >= |pattern| {
      assert !OccursAt(s, pattern, 0);
      forall i ensures !OccursAt(s[1..], pattern, i) {
        if i >= 0 {
          OccursAtTail(s, pattern, i);
        }
      }
      ReplaceAbsent(s[1..], pattern, replacement);
      assert s == [s[0]] + s[1..];
    }
  }

  /** A prefix in which no occurrence starts is copied through unchanged. */
  lemma {:induction false} ReplaceAfterPrefix(s: string, pattern: string, replacement: string, k: nat)
    requires pattern != "" && k <= |s|
    requires forall i :: 0 <= i < k ==> !OccursAt(s, pattern, i)
    ensures ReplaceAll(s, pattern, replacement) == s[..k] + ReplaceAll(s[k..], pattern, replacement)
  {
    if k == 0 {
      assert s[..0] == [] && s[0..] == s;
    } else if |s| < |pattern| {
      assert s[..k] + s[k..] == s;
    } else {
      assert !OccursAt(s, pattern, 0);
      var t := s[1..];
      forall i | 0 <= i < k - 1 ensures !OccursAt(t, pattern, i) {
        OccursAtTail(s, pattern, i);
      }
      ReplaceAfterPrefix(t, pattern, replacement, k - 1);
      calc {
        ReplaceAll(s, pattern, replacement);
        [s[0]] + ReplaceAll(t, pattern, replacement);
        [s[0]] + (t[..k - 1] + ReplaceAll(t[k - 1..], pattern, replacement));
        { assert t[k - 1..] == s[k..]; assert [s[0]] + t[..k - 1] == s[..k]; }
        s[..k] + ReplaceAll(s[k..], pattern, replacement);
      }
    }
  }

  /**
   * One step of the left-to-right scan: the text before the first occurrence
   * is copied, that occurrence becomes the replacement, and the scan resumes
   * after it. Applied repeatedly, this fixes the result for any number of
   * occurrences.
   */
  lemma {:induction false} ReplaceAtFirst(s: string, pattern: string, replacement: string, k: nat)
    requires pattern != "" && OccursAt(s, pattern, k)
    requires forall i :: 0 <= i < k ==> !OccursAt(s, pattern, i)
    ensures ReplaceAll(s, pattern, replacement) ==
      s[..k] + replacement + ReplaceAll(s[k + |pattern|..], pattern, replacement)
  {
    ReplaceAfterPrefix(s, pattern, replacement, k);
    var t := s[k..];
    assert t[..|pattern|] == pattern;
    assert t[|pattern|..] == s[k + |pattern|..];
    assert ReplaceAll(t, pattern, replacement) == replacement + ReplaceAll(t[|pattern|..], pattern, replacement);
  }

  /**
   * A string holding the pattern exactly once comes back with that
   * occurrence replaced and every other character where it was.
   */
  lemma ReplaceUnique(pre: string, pattern: string, post: string, replacement: string)
    requires pattern != ""
    requires forall i :: OccursAt(pre + pattern + post, pattern, i) ==> i == |pre|
    ensures ReplaceAll(pre + pattern + post, pattern, replacement) == pre + replacement + post
  {
    var s := pre + pattern + post;
    ReplaceAfterPrefix(s, pattern, replacement, |pre|);
    assert s[..|pre|] == pre;
    var rest := s[|pre|..];
    assert rest == pattern + post;
    assert rest[..|pattern|] == pattern;
    assert rest[|pattern|..] == post;
    NoOccurrenceAfterUnique(pre, pattern, post);
    ReplaceAbsent(post, pattern, replacement);
  }

  /** The text after the only occurrence holds no occurrence of its own. */
  lemma NoOccurrenceAfterUnique(pre: string, pattern: string, post: string)
    requires pattern != ""
    requires forall i :: OccursAt(pre + pattern + post, pattern, i) ==> i == |pre|
    ensures forall i :: !OccursAt(post, pattern, i)
  {
    var s := pre + pattern + post;
    forall i | OccursAt(post, pattern, i) ensures false {
      var j := |pre| + |pattern| + i;
      assert s[j..j + |pattern|] == post[i..i + |pattern|];
      assert OccursAt(s, pattern, j);
    }
  }

  /** Replacing the pattern by itself changes nothing. */
  lemma {:induction false} ReplaceBySelf(s: string, pattern: string)
    requires pattern != ""
    ensures ReplaceAll(s, pattern, pattern) == s
  {
    if |s| >= |pattern| {
      if s[..|pattern|] == pattern {
        ReplaceBySelf(s[|pattern|..], pattern);
        assert s == s[..|pattern|] + s[|pattern|..];
      } else {
        ReplaceBySelf(s[1..], pattern);
        assert s == [s[0]] + s[1..];
      }
    }
  }

  /** A template without the marker comes back unchanged, whatever the body. */
  lemma SubstituteAbsent(template: string, body: string)
    requires forall i :: !OccursAt(template, Marker, i)
    ensures Substitute(template, body) == template
  {
    ReplaceAbsent(template, Marker, body);
  }

  /** A template with the marker exactly once has body in its place and nothing else changed. */
  lemma SubstituteUnique(pre: string, post: string, body: string)
    requires forall i :: OccursAt(pre + Marker + post, Marker, i) ==> i == |pre|
    ensures Substitute(pre + Marker + post, body) == pre + body + post
  {
    ReplaceUnique(pre, Marker, post, body);
  }

  /** Substituting the marker for itself changes nothing. */
  lemma SubstituteMarkerIsIdentity(template: string)
    ensures Substitute(template, Marker) == template
  {
    ReplaceBySelf(template, Marker);
  }

  /**
   * When the text around one marker has no '{', that marker is the only
   * one: every occurrence starts with "{{".
   */
  lemma OnlyMarkerWithoutBraces(pre: string, post: string)
    requires '{' !in pre && '{' !in post
    ensures forall i :: OccursAt(pre + Marker + post, Marker, i) ==> i == |pre|
  {
    var s := pre + Marker + post;
    assert Marker == ['{', '{', 'c', 'o', 'n', 't', 'e', 'n', 't', '}', '}'];
    forall i | OccursAt(s, Marker, i) ensures i == |pre| {
      assert s[i..i + |Marker|][0] == s[i] == '{';
      assert s[i..i + |Marker|][1] == s[i + 1] == '{';
    }
  }
}
