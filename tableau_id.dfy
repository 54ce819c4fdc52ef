/**
 * The identifier sanitiser: Airtable table and field names become Tableau
 * table and column ids, which may only hold the characters [A-Za-z0-9_].
 *
 * `ReplaceSpecialChars` is the connector's chain of global replaces, applied
 * in the connector's order; `Sanitized` is an independent per-character
 * definition.  `ChainIsPerChar` proves the two equal, and the properties of
 * the chain (output alphabet, idempotence, legal ids are fixed points,
 * concatenation) are proved through it.
 */
module TableauId {

  /** A character Tableau accepts in an id: [A-Za-z0-9_]. */
  predicate IsIdChar(c: char) {
    ('A' <= c <= 'Z') || ('a' <= c <= 'z') || ('0' <= c <= '9') || c == '_'
  }

  predicate IsIdString(s: seq<char>) {
    forall i :: 0 <= i < |s| ==> IsIdChar(s[i])
  }

  /** `s.replace(/p/g, rep)` for a pattern that is the single character `p`. */
  function ReplaceAll(s: seq<char>, p: char, rep: seq<char>): seq<char> {
    if s == [] then [] else (if s[0] == p then rep else [s[0]]) + ReplaceAll(s[1..], p, rep)
  }

  /** `s.replace(/[^A-Za-z0-9_]/g, '_')`. */
  function ReplaceDisallowed(s: seq<char>): seq<char> {
    if s == [] then [] else (if IsIdChar(s[0]) then [s[0]] else "_") + ReplaceDisallowed(s[1..])
  }

  /**
   * The seven single-character replaces of the chain, in the order the
   * connector applies them, as (pattern, replacement).
   */
  const SPECIAL_REPLACEMENTS: seq<(char, seq<char>)> := [
    (' ', "_"),
    ('"', "_doublequote_"),
    (',', "_comma_"),
    ('=', "_equal_"),
    ('/', "_fslash_"),
    ('-', "_dash_"),
    ('.', "_dot_")
  ]

  /** Apply the replaces of `reps` one after the other, then the catch-all replace. */
  function ApplyReplaces(s: seq<char>, reps: seq<(char, seq<char>)>): seq<char>
    decreases |reps|
  {
    if reps == [] then ReplaceDisallowed(s)
    else ApplyReplaces(ReplaceAll(s, reps[0].0, reps[0].1), reps[1..])
  }

  /** The connector's sanitiser: the whole replace chain. */
  function ReplaceSpecialChars(s: seq<char>): seq<char> {
    ApplyReplaces(s, SPECIAL_REPLACEMENTS)
  }

  /** What the sanitiser makes of one character. */
  function SanitizeChar(c: char): (r: seq<char>)
    ensures |r| > 0 && IsIdString(r)
    ensures IsIdChar(c) <==> r == [c]
  {
    if c == ' ' then "_"
    else if c == '"' then "_doublequote_"
    else if c == ',' then "_comma_"
    else if c == '=' then "_equal_"
    else if c == '/' then "_fslash_"
    else if c == '-' then "_dash_"
    else if c == '.' then "_dot_"
    else if IsIdChar(c) then [c]
    else "_"
  }

  /** Reference definition: sanitise every character on its own and concatenate. */
  function Sanitized(s: seq<char>): seq<char> {
    if s == [] then [] else SanitizeChar(s[0]) + Sanitized(s[1..])
  }

  lemma {:induction false} ReplaceAllAppend(a: seq<char>, b: seq<char>, p: char, rep: seq<char>)
    ensures ReplaceAll(a + b, p, rep) == ReplaceAll(a, p, rep) + ReplaceAll(b, p, rep)
  {
    if a != [] {
      assert (a + b)[1..] == a[1..] + b;
      ReplaceAllAppend(a[1..], b, p, rep);
    } else {
      assert a + b == b;
    }
  }

  lemma {:induction false} ReplaceDisallowedAppend(a: seq<char>, b: seq<char>)
    ensures ReplaceDisallowed(a + b) == ReplaceDisallowed(a) + ReplaceDisallowed(b)
  {
    if a != [] {
      assert (a + b)[1..] == a[1..] + b;
      ReplaceDisallowedAppend(a[1..], b);
    } else {
      assert a + b == b;
    }
  }

  /** A replace whose pattern does not occur leaves the string alone. */
  lemma {:induction false} ReplaceAllAbsent(s: seq<char>, p: char, rep: seq<char>)
    requires p !in s
    ensures ReplaceAll(s, p, rep) == s
  {
    if s != [] {
      assert p !in s[1..];
      ReplaceAllAbsent(s[1..], p, rep);
    }
  }

  /** The catch-all replace leaves a legal id alone. */
  lemma {:induction false} ReplaceDisallowedOfId(s: seq<char>)
    requires IsIdString(s)
    ensures ReplaceDisallowed(s) == s
  {
    if s != [] {
      assert IsIdChar(s[0]);
      ReplaceDisallowedOfId(s[1..]);
    }
  }

  lemma ReplaceAllSingle(c: char, p: char, rep: seq<char>)
    ensures ReplaceAll([c], p, rep) == if c == p then rep else [c]
  {
    assert [c][1..] == [];
  }

  /** Every step distributes over concatenation, so the whole chain does. */
  lemma {:induction false} ApplyAppend(a: seq<char>, b: seq<char>, reps: seq<(char, seq<char>)>)
    ensures ApplyReplaces(a + b, reps) == ApplyReplaces(a, reps) + ApplyReplaces(b, reps)
    decreases |reps|
  {
    if reps == [] {
      ReplaceDisallowedAppend(a, b);
    } else {
      var p, rep := reps[0].0, reps[0].1;
      ReplaceAllAppend(a, b, p, rep);
      ApplyAppend(ReplaceAll(a, p, rep), ReplaceAll(b, p, rep), reps[1..]);
    }
  }

  /** Replaces whose patterns are all illegal characters leave a legal id alone. */
  lemma {:induction false} ApplyFixesIds(t: seq<char>, reps: seq<(char, seq<char>)>)
    requires IsIdString(t)
    requires forall k :: 0 <= k < |reps| ==> !IsIdChar(reps[k].0)
    ensures ApplyReplaces(t, reps) == t
    decreases |reps|
  {
    if reps == [] {
      ReplaceDisallowedOfId(t);
    } else {
      assert !IsIdChar(reps[0].0);
      ReplaceAllAbsent(t, reps[0].0, reps[0].1);
      ApplyFixesIds(t, reps[1..]);
    }
  }

  /** The text the first replace of `reps` whose pattern is `c` gives, or else the catch-all's. */
  function FirstReplacement(c: char, reps: seq<(char, seq<char>)>): seq<char>
    decreases |reps|
  {
    if reps == [] then (if IsIdChar(c) then [c] else "_")
    else if reps[0].0 == c then reps[0].1
    else FirstReplacement(c, reps[1..])
  }

  /**
   * On one character the chain gives the replacement of the first pattern that
   * matches it: every replacement is a legal id, which no later step rewrites.
   */
  lemma {:induction false} ApplyOnChar(c: char, reps: seq<(char, seq<char>)>)
    requires forall k :: 0 <= k < |reps| ==> !IsIdChar(reps[k].0) && IsIdString(reps[k].1)
    ensures ApplyReplaces([c], reps) == FirstReplacement(c, reps)
    decreases |reps|
  {
    if reps == [] {
      assert [c][1..] == [];
      assert ReplaceDisallowed([c][1..]) == [];
    } else {
      var p, rep := reps[0].0, reps[0].1;
      ReplaceAllSingle(c, p, rep);
      if c == p {
        ApplyFixesIds(rep, reps[1..]);
      } else {
        ApplyOnChar(c, reps[1..]);
      }
    }
  }

  lemma ChainOnChar(c: char)
    ensures ReplaceSpecialChars([c]) == SanitizeChar(c)
  {
    ApplyOnChar(c, SPECIAL_REPLACEMENTS);
  }

  /** The connector's replace chain equals the per-character definition. */
  lemma {:induction false} ChainIsPerChar(s: seq<char>)
    ensures ReplaceSpecialChars(s) == Sanitized(s)
  {
    if s != [] {
      assert s == [s[0]] + s[1..];
      ApplyAppend([s[0]], s[1..], SPECIAL_REPLACEMENTS);
      ChainOnChar(s[0]);
      ChainIsPerChar(s[1..]);
    }
  }

  lemma {:induction false} SanitizedIsId(s: seq<char>)
    ensures IsIdString(Sanitized(s))
  {
    if s != [] {
      SanitizedIsId(s[1..]);
      var h, t := SanitizeChar(s[0]), Sanitized(s[1..]);
      forall i | 0 <= i < |h + t| ensures IsIdChar((h + t)[i]) {
        if i >= |h| { assert (h + t)[i] == t[i - |h|]; }
      }
    }
  }

  lemma {:induction false} SanitizedFixesIds(s: seq<char>)
    requires IsIdString(s)
    ensures Sanitized(s) == s
  {
    if s != [] {
      assert IsIdChar(s[0]);
      SanitizedFixesIds(s[1..]);
    }
  }

  lemma {:induction false} SanitizedLength(s: seq<char>)
    ensures |Sanitized(s)| >= |s|
  {
    if s != [] {
      SanitizedLength(s[1..]);
    }
  }

  /** Every character of a sanitised name is in [A-Za-z0-9_]. */
  lemma Alphabet(s: seq<char>)
    ensures IsIdString(ReplaceSpecialChars(s))
  {
    ChainIsPerChar(s);
    SanitizedIsId(s);
  }

  /** The sanitiser returns its input exactly when the input is already a legal id. */
  lemma FixedPoints(s: seq<char>)
    ensures ReplaceSpecialChars(s) == s <==> IsIdString(s)
  {
    ChainIsPerChar(s);
    if IsIdString(s) {
      SanitizedFixesIds(s);
    } else {
      SanitizedIsId(s);
    }
  }

  /** Sanitising twice is sanitising once. */
  lemma Idempotent(s: seq<char>)
    ensures ReplaceSpecialChars(ReplaceSpecialChars(s)) == ReplaceSpecialChars(s)
  {
    Alphabet(s);
    FixedPoints(ReplaceSpecialChars(s));
  }

  /** The sanitiser acts character by character: it distributes over concatenation. */
  lemma Concatenation(a: seq<char>, b: seq<char>)
    ensures ReplaceSpecialChars(a + b) == ReplaceSpecialChars(a) + ReplaceSpecialChars(b)
    ensures ReplaceSpecialChars([]) == []
  {
    ApplyAppend(a, b, SPECIAL_REPLACEMENTS);
    ChainIsPerChar([]);
  }

  /** A sanitised name is never shorter than the name. */
  lemma NeverShorter(s: seq<char>)
    ensures |ReplaceSpecialChars(s)| >= |s|
  {
    ChainIsPerChar(s);
    SanitizedLength(s);
  }

  /**
   * Two legal ids joined by a space become the same ids joined by an
   * underscore: "Due Date" becomes the column id "Due_Date".
   */
  lemma SpacedWords(a: seq<char>, b: seq<char>)
    requires IsIdString(a) && IsIdString(b)
    ensures ReplaceSpecialChars(a + [' '] + b) == a + ['_'] + b
  {
    Concatenation(a + [' '], b);
    Concatenation(a, [' ']);
    FixedPoints(a);
    FixedPoints(b);
    ChainOnChar(' ');
  }

  /** The column id of a field named "Due Date". */
  lemma DueDate()
    ensures ReplaceSpecialChars("Due Date") == "Due_Date"
  {
    SpacedWords("Due", "Date");
    assert "Due" + [' '] + "Date" == "Due Date";
    assert "Due" + ['_'] + "Date" == "Due_Date";
  }
}
