/**
  String helpers shared by the services: ASCII case mapping (the stand-in for
  Java's toLowerCase/toUpperCase), suffix and substring tests, the blank test of
  String.isBlank, joining with a separator, and splitting on a character.
*/
module Text {

  function LowerChar(c: char): char {
    if 'A' <= c <= 'Z' then (c as int + 32) as char else c
  }

  function UpperChar(c: char): char {
    if 'a' <= c <= 'z' then (c as int - 32) as char else c
  }

  /** String.toLowerCase, restricted to the ASCII letters. */
  function Lower(s: string): (r: string)
    ensures |r| == |s|
    ensures forall i :: 0 <= i < |s| ==> r[i] == LowerChar(s[i])
  {
    seq(|s|, i requires 0 <= i < |s| => LowerChar(s[i]))
  }

  /** String.toUpperCase, restricted to the ASCII letters. */
  function Upper(s: string): (r: string)
    ensures |r| == |s|
    ensures forall i :: 0 <= i < |s| ==> r[i] == UpperChar(s[i])
  {
    seq(|s|, i requires 0 <= i < |s| => UpperChar(s[i]))
  }

  lemma LowerAppend(a: string, b: string)
    ensures Lower(a + b) == Lower(a) + Lower(b)
  {
    assert forall i :: 0 <= i < |a + b| ==> Lower(a + b)[i] == (Lower(a) + Lower(b))[i];
  }

  predicate StartsWith(s: string, prefix: string) {
    |prefix| <= |s| && s[..|prefix|] == prefix
  }

  /** String.endsWith. */
  predicate EndsWith(s: string, suffix: string) {
    |suffix| <= |s| && s[|s| - |suffix|..] == suffix
  }

  predicate OccursAt(s: string, sub: string, i: nat) {
    i + |sub| <= |s| && s[i..i + |sub|] == sub
  }

  /** sub occurs in s at i when case is ignored, compared one character at a time. */
  predicate OccursAtIgnoringCase(s: string, sub: string, i: nat) {
    i + |sub| <= |s| && forall k | 0 <= k < |sub| :: LowerChar(s[i + k]) == LowerChar(sub[k])
  }

  lemma LowerOccursAt(s: string, sub: string, i: nat)
    ensures OccursAt(Lower(s), Lower(sub), i) <==> OccursAtIgnoringCase(s, sub, i)
  {
    if i + |sub| <= |s| {
      var window := Lower(s)[i..i + |sub|];
      assert forall k | 0 <= k < |sub| :: window[k] == LowerChar(s[i + k]);
    }
  }

  /** String.contains: sub occurs somewhere in s. */
  predicate Contains(s: string, sub: string) {
    exists i: nat | i <= |s| :: OccursAt(s, sub, i)
  }

  lemma ContainsSuffix(prefix: string, sub: string)
    ensures Contains(prefix + sub, sub)
  {
    assert OccursAt(prefix + sub, sub, |prefix|);
  }

  /** Containment of the lower-cased strings is containment ignoring case. */
  lemma ContainsIgnoringCase(s: string, sub: string)
    ensures Contains(Lower(s), Lower(sub)) <==> exists i: nat :: OccursAtIgnoringCase(s, sub, i)
  {
    forall i: nat ensures OccursAt(Lower(s), Lower(sub), i) <==> OccursAtIgnoringCase(s, sub, i) {
      LowerOccursAt(s, sub, i);
    }
  }

  /** A suffix of the lower-cased strings is a suffix ignoring case. */
  lemma EndsWithIgnoringCase(s: string, suffix: string)
    ensures EndsWith(Lower(s), Lower(suffix)) <==>
              |suffix| <= |s| && OccursAtIgnoringCase(s, suffix, |s| - |suffix|)
  {
    if |suffix| <= |s| {
      LowerOccursAt(s, suffix, |s| - |suffix|);
      assert Lower(s)[|s| - |suffix|..] == Lower(s)[|s| - |suffix|..|s| - |suffix| + |suffix|];
    }
  }

  /** Character.isWhitespace on the characters below 128. */
  predicate IsWhitespace(c: char) {
    (9 <= c as int <= 13) || (28 <= c as int <= 32)
  }

  /** String.isBlank: empty or whitespace only. */
  predicate IsBlank(s: string) {
    forall i :: 0 <= i < |s| ==> IsWhitespace(s[i])
  }

  /** Collectors.joining(sep) over an ordered list of parts. */
  function Join(parts: seq<string>, sep: string): string {
    if |parts| == 0 then ""
    else if |parts| == 1 then parts[0]
    else parts[0] + sep + Join(parts[1..], sep)
  }

  /** A join starts with its first part and ends with its last. */
  lemma {:induction false} JoinEnds(parts: seq<string>, sep: string)
    ensures |parts| >= 1 ==>
              StartsWith(Join(parts, sep), parts[0]) && EndsWith(Join(parts, sep), parts[|parts| - 1])
    decreases |parts|
  {
    if |parts| > 1 {
      JoinEnds(parts[1..], sep);
      var rest := Join(parts[1..], sep);
      var last := parts[|parts| - 1];
      var whole := parts[0] + sep + rest;
      assert Join(parts, sep) == whole;
      assert whole[..|parts[0]|] == parts[0];
      assert last == parts[1..][|parts[1..]| - 1];
      assert whole[|whole| - |last|..] == rest[|rest| - |last|..];
    }
  }

  /** The number of occurrences of c in s. */
  function Count(s: string, c: char): nat {
    if s == [] then 0 else (if s[0] == c then 1 else 0) + Count(s[1..], c)
  }

  /** String.replace(c, ""): every occurrence of c removed. */
  function RemoveChar(s: string, c: char): (r: string)
    ensures c !in r
  {
    if s == [] then [] else (if s[0] == c then [] else [s[0]]) + RemoveChar(s[1..], c)
  }

  lemma {:induction false} RemoveAbsentChar(s: string, c: char)
    requires c !in s
    ensures RemoveChar(s, c) == s
  {
    if s != [] {
      RemoveAbsentChar(s[1..], c);
    }
  }

  /** The fields of s between occurrences of sep, empty fields included. */
  function Split(s: string, sep: char): (r: seq<string>)
    ensures |r| >= 1
  {
    SplitFrom(s, sep, "")
  }

  function SplitFrom(s: string, sep: char, field: string): (r: seq<string>)
    ensures |r| >= 1
  {
    if s == [] then [field]
    else if s[0] == sep then [field] + SplitFrom(s[1..], sep, "")
    else SplitFrom(s[1..], sep, field + [s[0]])
  }

  lemma {:induction false} SplitFromWithoutSeparator(s: string, sep: char, field: string)
    requires sep !in s
    ensures SplitFrom(s, sep, field) == [field + s]
  {
    if s != [] {
      assert s[0] in s;
      assert sep !in s[1..] by {
        forall k | 0 <= k < |s[1..]| ensures s[1..][k] != sep {
          assert s[1..][k] == s[k + 1];
        }
      }
      SplitFromWithoutSeparator(s[1..], sep, field + [s[0]]);
      assert field + [s[0]] + s[1..] == field + s;
    } else {
      assert field + s == field;
    }
  }

  /** A run without the separator only extends the current field. */
  lemma {:induction false} SplitFromAppend(s: string, rest: string, sep: char, field: string)
    requires sep !in s
    ensures SplitFrom(s + rest, sep, field) == SplitFrom(rest, sep, field + s)
  {
    if s == [] {
      assert s + rest == rest && field + s == field;
    } else {
      assert s[0] in s;
      assert sep !in s[1..] by {
        forall k | 0 <= k < |s[1..]| ensures s[1..][k] != sep {
          assert s[1..][k] == s[k + 1];
        }
      }
      assert (s + rest)[0] == s[0] && (s + rest)[1..] == s[1..] + rest;
      SplitFromAppend(s[1..], rest, sep, field + [s[0]]);
      assert field + [s[0]] + s[1..] == field + s;
    }
  }

  /** Splitting a join on its one-character separator gives the parts back. */
  lemma {:induction false} SplitJoin(parts: seq<string>, sep: char, field: string)
    requires |parts| >= 1 && forall part | part in parts :: sep !in part
    ensures SplitFrom(Join(parts, [sep]), sep, field) == [field + parts[0]] + parts[1..]
    decreases |parts|
  {
    assert parts[0] in parts;
    if |parts| == 1 {
      SplitFromWithoutSeparator(parts[0], sep, field);
    } else {
      var tail := Join(parts[1..], [sep]);
      assert Join(parts, [sep]) == parts[0] + ([sep] + tail);
      SplitFromAppend(parts[0], [sep] + tail, sep, field);
      assert ([sep] + tail)[1..] == tail;
      assert forall part | part in parts[1..] :: part in parts;
      SplitJoin(parts[1..], sep, "");
      assert "" + parts[1] == parts[1];
      assert [parts[1]] + parts[1..][1..] == parts[1..];
    }
  }

  lemma SplitWithoutSeparator(s: string, sep: char)
    requires sep !in s
    ensures Split(s, sep) == [s]
  {
    SplitFromWithoutSeparator(s, sep, "");
    assert "" + s == s;
  }
}
