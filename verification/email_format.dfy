/**
 * The service's email check, `re.match(r"[^@]+@[^@]+\.[^@]+", email)`.
 *
 * `re.match` anchors the pattern at the start of the text only, so the check
 * succeeds as soon as some PREFIX of the text has the shape
 * local-part `@` domain `.` one more character, none of them `@`; whatever
 * follows that prefix, `@` signs included, is ignored.
 */
module EmailFormat {

  /** No `@` in s[lo..hi]. */
  predicate NoAtBetween(s: string, lo: int, hi: int)
    requires 0 <= lo <= hi <= |s|
  {
    forall k :: lo <= k < hi ==> s[k] != '@'
  }

  /**
   * The pattern matches s[..dot + 2] with its `@` at index `at` and its
   * escaped `.` at index `dot` (each `[^@]+` may be longer than one
   * character; the last one needs only one).
   */
  ghost predicate MatchesWith(s: string, at: int, dot: int)
  {
    0 < at && at + 1 < dot && dot + 1 < |s| &&
    NoAtBetween(s, 0, at) && s[at] == '@' &&
    NoAtBetween(s, at + 1, dot) && s[dot] == '.' &&
    s[dot + 1] != '@'
  }

  /** The regular expression matches at the start of s. */
  ghost predicate RegexMatches(s: string)
  {
    exists at, dot :: MatchesWith(s, at, dot)
  }

  /** The first index at or after `from` holding `c`, or |s| when there is none. */
  function IndexOf(s: string, c: char, from: nat): (i: nat)
    requires from <= |s|
    ensures from <= i <= |s|
    ensures i < |s| ==> s[i] == c
    ensures forall k :: from <= k < i ==> s[k] != c
    decreases |s| - from
  {
    if from == |s| || s[from] == c then from else IndexOf(s, c, from + 1)
  }

  /**
   * The check as the service runs it: the first `@` must have text before it,
   * and a `.` must follow it, after at least one character, before the next
   * `@`, with one non-`@` character after the `.`.
   */
  function IsValidEmailFormat(s: string): bool
  {
    var at := IndexOf(s, '@', 0);
    0 < at < |s| &&
    var end := IndexOf(s, '@', at + 1);
    exists dot :: at + 2 <= dot < end - 1 && s[dot] == '.'
  }

  /** The check accepts exactly the addresses the regular expression matches. */
  lemma {:induction false} CheckIsRegexMatch(s: string)
    ensures IsValidEmailFormat(s) <==> RegexMatches(s)
  {
    var at := IndexOf(s, '@', 0);
    if IsValidEmailFormat(s) {
      var end := IndexOf(s, '@', at + 1);
      var dot :| at + 2 <= dot < end - 1 && s[dot] == '.';
      assert MatchesWith(s, at, dot);
    }
    if RegexMatches(s) {
      var a, dot :| MatchesWith(s, a, dot);
      assert at == a;
      var end := IndexOf(s, '@', at + 1);
      assert dot + 1 < end;
    }
  }

  /** Only a prefix has to match: anything may follow it, a second `@` included. */
  lemma PrefixIsEnough()
    ensures IsValidEmailFormat("a@b.c@@ trailing")
    ensures IsValidEmailFormat("a@b.c")
    ensures !IsValidEmailFormat("@b.c")
    ensures !IsValidEmailFormat("a@.c")
    ensures !IsValidEmailFormat("a@b.")
    ensures !IsValidEmailFormat("a@b@c.d")
  {
    var s := "a@b.c@@ trailing";
    assert IndexOf(s, '@', 0) == 1;
    assert IndexOf(s, '@', 2) == 5;
    assert s[3] == '.';
    var t := "a@b.c";
    assert IndexOf(t, '@', 0) == 1;
    assert IndexOf(t, '@', 2) == 5;
    assert t[3] == '.';
    assert IndexOf("@b.c", '@', 0) == 0;
    var u := "a@.c";
    assert IndexOf(u, '@', 0) == 1;
    assert IndexOf(u, '@', 2) == 4;
    var v := "a@b.";
    assert IndexOf(v, '@', 0) == 1;
    assert IndexOf(v, '@', 2) == 4;
    var w := "a@b@c.d";
    assert IndexOf(w, '@', 0) == 1;
    assert IndexOf(w, '@', 2) == 3;
  }
}
