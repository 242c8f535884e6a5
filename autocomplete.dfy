/**
 * `DictionaryDevAutocomplete`: finds the word around the cursor, looks it up
 * in the term list, ranks the matches by edit distance, and replaces the word
 * with a `[[term]]` link whose case follows the word that was typed.
 */
module Autocomplete {
  import opened Wrappers
  import opened JsString
  import opened Editor
  import EditDistance
  import StableSort

  /** `excluded_chars`: the characters that end a word. */
  const Separators: seq<char> :=
    [' ', '.', '!', '?', '#', '$', '@', '%', '^', '&', '*', '(', ')', '[', ']',
     '{', '}', ';', ':', '\'', '"', ',', '/', '<', '>', '~', '`', '+']

  /** Membership in `excluded_chars`, written out character by character
      (`SeparatorsListed` shows it is membership in `Separators`). */
  predicate IsSeparator(c: char)
  {
    c == ' ' || c == '.' || c == '!' || c == '?' || c == '#' || c == '$' || c == '@' ||
    c == '%' || c == '^' || c == '&' || c == '*' || c == '(' || c == ')' || c == '[' ||
    c == ']' || c == '{' || c == '}' || c == ';' || c == ':' || c == '\'' || c == '"' ||
    c == ',' || c == '/' || c == '<' || c == '>' || c == '~' || c == '`' || c == '+'
  }

  lemma SeparatorsListed(c: char)
    ensures IsSeparator(c) <==> c in Separators
  {
  }

  /** `excluded_chars.contains(line.at(k)!)`: a negative `k` reads from the end
      of the line, and `undefined` is never a separator. */
  predicate SeparatorAt(line: string, k: int)
  {
    At(line, k).Some? && IsSeparator(At(line, k).value)
  }

  function Max0(i: int): nat { if i < 0 then 0 else i }

  // ---------------------------------------------------------------------------
  // The word-span scan (both in `onTrigger` and in `selectSuggestion`)
  // ---------------------------------------------------------------------------

  /** Where the backward scan from index `i` stops: just past the nearest
      separator at or before `i`, or 0. */
  function ScanStart(line: string, i: int): (r: nat)
    ensures r <= Max0(i + 1) && r <= |line|
    ensures r == 0 || IsSeparator(line[r - 1])
    ensures forall k :: r <= k <= i && k < |line| ==> !IsSeparator(line[k])
    decreases i + 1
  {
    if i < 0 then 0
    else if SeparatorAt(line, i) then i + 1
    else ScanStart(line, i - 1)
  }

  /** Where the forward scan from index `i` stops: at the first separator at
      or after `i`, or at the end of the line (at once when `i` is past it).
      Starting at -1 first reads the last character of the line, as
      `line.at(-1)` does. */
  function ScanEnd(line: string, i: int): (r: int)
    requires -1 <= i
    ensures r == -1 ==> i == -1 && |line| > 0 && IsSeparator(line[|line| - 1])
    ensures i >= |line| ==> r == |line|
    ensures r != -1 && i <= |line| ==> Max0(i) <= r <= |line|
    ensures r != -1 ==> r == |line| || IsSeparator(line[r])
    ensures r != -1 ==> forall k :: Max0(i) <= k < r ==> !IsSeparator(line[k])
    decreases |line| - i
  {
    if i >= |line| then |line|
    else if SeparatorAt(line, i) then i
    else ScanEnd(line, i + 1)
  }

  /** Started at -1 with a separator as the line's last character, the
      forward scan stops at once at -1 (the converse of `ScanEnd`'s first
      clause). */
  lemma ScanEndWraps(line: string)
    requires |line| > 0 && IsSeparator(line[|line| - 1])
    ensures ScanEnd(line, -1) == -1
  {
  }

  /** The two scanning loops, from the character before the cursor. */
  method ScanBounds(line: string, ch: nat) returns (start: nat, end: int)
    ensures start == ScanStart(line, ch - 1) && end == ScanEnd(line, ch - 1)
  {
    start, end := 0, |line|;
    var i := ch - 1;
    while i >= 0
      invariant -1 <= i <= ch - 1
      invariant start == 0
      invariant ScanStart(line, ch - 1) == ScanStart(line, i)
      decreases i
    {
      if SeparatorAt(line, i) {
        start := i + 1;
        break;
      }
      i := i - 1;
    }
    i := ch - 1;
    while i < |line|
      invariant ch - 1 <= i
      invariant i <= |line| || i == ch - 1
      invariant end == |line|
      invariant ScanEnd(line, ch - 1) == ScanEnd(line, i)
      decreases |line| - i
    {
      if SeparatorAt(line, i) {
        end := i;
        break;
      }
      i := i + 1;
    }
  }

  /** What `onTrigger` returns for the cursor at offset `ch` of `line`. */
  function TriggerAt(line: string, ch: nat): Option<Trigger>
  {
    if |line| <= 0 then None
    else if SeparatorAt(line, ch - 1) then None
    else
      var s, e := ScanStart(line, ch - 1), ScanEnd(line, ch - 1);
      if e - s <= 1 then None else Some(Trigger(s, e, Substring(line, s, e)))
  }

  /** `onTrigger` */
  method OnTrigger(line: string, ch: nat) returns (t: Option<Trigger>)
    ensures t == TriggerAt(line, ch)
  {
    if |line| <= 0 {
      return None;
    }
    if SeparatorAt(line, ch - 1) {
      return None;
    }
    var start, end := ScanBounds(line, ch);
    if end - start <= 1 {
      return None;
    }
    t := Some(Trigger(start, end, Substring(line, start, end)));
  }

  /** `[s, e)` is the whole separator-free word of `line` that holds index `p`. */
  ghost predicate IsWordAround(line: string, s: int, e: int, p: int)
  {
    0 <= s <= p < e <= |line| &&
    (forall k :: s <= k < e ==> !IsSeparator(line[k])) &&
    (s == 0 || IsSeparator(line[s - 1])) &&
    (e == |line| || IsSeparator(line[e]))
  }

  /** The trigger is rejected on an empty line and when the character before
      the cursor is a separator; at offset 0 that character is the last one
      of the line. */
  lemma TriggerRejects(line: string, ch: nat)
    ensures |line| == 0 ==> TriggerAt(line, ch).None?
    ensures 1 <= ch <= |line| && IsSeparator(line[ch - 1]) ==> TriggerAt(line, ch).None?
    ensures ch == 0 && |line| > 0 && IsSeparator(line[|line| - 1]) ==> TriggerAt(line, ch).None?
  {
  }

  /** A trigger is the whole word around the character before the cursor, at
      least two characters long. */
  lemma TriggerIsWord(line: string, ch: nat)
    requires 1 <= ch <= |line|
    requires TriggerAt(line, ch).Some?
    ensures var t := TriggerAt(line, ch).value;
      IsWordAround(line, t.start, t.end, ch - 1) &&
      t.query == line[t.start..t.end] && |t.query| >= 2
  {
    var s, e := ScanStart(line, ch - 1), ScanEnd(line, ch - 1);
    assert !IsSeparator(line[ch - 1]);
    assert TriggerAt(line, ch).value == Trigger(s, e, line[s..e]);
  }

  /** Conversely, every word of at least two characters around the character
      before the cursor is reported, with its exact range. */
  lemma {:induction false} WordIsTrigger(line: string, ch: nat, s: int, e: int)
    requires 1 <= ch <= |line|
    requires IsWordAround(line, s, e, ch - 1) && e - s >= 2
    ensures TriggerAt(line, ch) == Some(Trigger(s, e, line[s..e]))
  {
    ScanStartOfWord(line, s, ch - 1);
    ScanEndOfWord(line, e, ch - 1);
  }

  lemma {:induction false} ScanStartOfWord(line: string, s: nat, i: int)
    requires s <= i < |line|
    requires s == 0 || IsSeparator(line[s - 1])
    requires forall k :: s <= k <= i ==> !IsSeparator(line[k])
    ensures ScanStart(line, i) == s
    decreases i
  {
    if i > s {
      ScanStartOfWord(line, s, i - 1);
    } else if s > 0 {
      assert ScanStart(line, s - 1) == s;
    }
  }

  lemma {:induction false} ScanEndOfWord(line: string, e: int, i: nat)
    requires i < e <= |line|
    requires e == |line| || IsSeparator(line[e])
    requires forall k :: i <= k < e ==> !IsSeparator(line[k])
    ensures ScanEnd(line, i) == e
    decreases e - i
  {
    if i + 1 < e {
      ScanEndOfWord(line, e, i + 1);
    } else if e < |line| {
      assert SeparatorAt(line, e);
    }
  }

  /** The cursor right after a first word of two or more letters, followed
      by a space (as after `hello` in `hello world`), triggers on that word. */
  lemma FirstWordTriggers(w: string, rest: string)
    requires |w| >= 2 && forall k :: 0 <= k < |w| ==> !IsSeparator(w[k])
    ensures TriggerAt(w + " " + rest, |w|) == Some(Trigger(0, |w|, w))
  {
    var line := w + " " + rest;
    assert line[|w|] == ' ';
    assert forall k :: 0 <= k < |w| ==> line[k] == w[k];
    WordIsTrigger(line, |w|, 0, |w|);
    assert line[0..|w|] == w;
  }

  /** The cursor before the `b` of `a. b` does not trigger. */
  lemma SpaceBeforeCursorRejects()
    ensures TriggerAt("a. b", 3) == None
  {
  }

  /** At offset 0 the backward scan finds nothing and the forward scan starts
      at the last character; once that is not a separator, the result is the
      one for offset 1, the first word of the line. */
  lemma CursorAtLineStart(line: string)
    requires |line| > 0 && !IsSeparator(line[|line| - 1])
    ensures TriggerAt(line, 0) == TriggerAt(line, 1)
  {
    assert ScanEnd(line, -1) == ScanEnd(line, 0);
  }

  /** An offset past the end of the line reads `undefined` before the
      cursor, which is no separator, so nothing rejects it at once; the
      backward scan passes over the missing characters and the forward scan
      does not run. The result is the one for the cursor at the line's end. */
  lemma {:induction false} CursorPastLineEnd(line: string, ch: nat)
    requires ch > |line|
    ensures TriggerAt(line, ch) == TriggerAt(line, |line|)
  {
    var n := |line|;
    if n > 0 {
      ScanStartPastEnd(line, ch - 1);
      var s, e := ScanStart(line, ch - 1), ScanEnd(line, ch - 1);
      assert e == n;
      if IsSeparator(line[n - 1]) {
        assert SeparatorAt(line, n - 1);
        assert s == n;
      } else {
        assert ScanEnd(line, n - 1) == n;
        SameScan(line, ch, n);
      }
    }
  }

  /** Two cursor offsets with the same reads and scan bounds trigger alike. */
  lemma SameScan(line: string, c1: nat, c2: nat)
    requires SeparatorAt(line, c1 - 1) == SeparatorAt(line, c2 - 1)
    requires ScanStart(line, c1 - 1) == ScanStart(line, c2 - 1)
    requires ScanEnd(line, c1 - 1) == ScanEnd(line, c2 - 1)
    ensures TriggerAt(line, c1) == TriggerAt(line, c2)
  {
  }

  lemma {:induction false} ScanStartPastEnd(line: string, i: int)
    requires i >= |line|
    ensures ScanStart(line, i) == ScanStart(line, |line| - 1)
    decreases i
  {
    if i > |line| {
      ScanStartPastEnd(line, i - 1);
    }
  }

  /** No character of a trigger's query is a separator. */
  lemma QueryHasNoSeparator(line: string, ch: nat)
    requires TriggerAt(line, ch).Some?
    ensures forall i :: 0 <= i < |TriggerAt(line, ch).value.query| ==> !IsSeparator(TriggerAt(line, ch).value.query[i])
  {
    var c := if ch == 0 then 1 else if ch > |line| then |line| else ch;
    if ch == 0 {
      CursorAtLineStart(line);
    } else if ch > |line| {
      CursorPastLineEnd(line, ch);
    }
    TriggerIsWord(line, c);
    var t := TriggerAt(line, c).value;
    SliceHasNoSeparator(line, t.start, t.end);
  }

  lemma SliceHasNoSeparator(line: string, s: int, e: int)
    requires 0 <= s <= e <= |line|
    requires forall k :: s <= k < e ==> !IsSeparator(line[k])
    ensures forall i :: 0 <= i < e - s ==> !IsSeparator(line[s..e][i])
  {
    forall i | 0 <= i < e - s ensures !IsSeparator(line[s..e][i]) {
      assert line[s..e][i] == line[s + i];
    }
  }

  // ---------------------------------------------------------------------------
  // getSuggestions
  // ---------------------------------------------------------------------------

  /** The characters with a meaning in a regular-expression pattern. */
  predicate IsRegexMeta(c: char)
  {
    c in ['\\', '^', '$', '.', '|', '?', '*', '+', '(', ')', '[', ']', '{', '}']
  }

  /** A pattern that `new RegExp` reads literally, so that `match` is substring search. */
  predicate IsLiteralPattern(q: string)
  {
    forall i :: 0 <= i < |q| ==> !IsRegexMeta(q[i])
  }

  /** A query that came out of the scan and has no `|` or `\` is a literal pattern. */
  lemma ScannedQueryIsLiteral(line: string, ch: nat)
    requires TriggerAt(line, ch).Some?
    requires forall i :: 0 <= i < |TriggerAt(line, ch).value.query| ==>
               TriggerAt(line, ch).value.query[i] !in ['|', '\\']
    ensures IsLiteralPattern(Upper(TriggerAt(line, ch).value.query))
  {
    var q := TriggerAt(line, ch).value.query;
    QueryHasNoSeparator(line, ch);
    forall i | 0 <= i < |q| ensures !IsRegexMeta(Upper(q)[i]) {
      LiteralChar(q[i]);
    }
  }

  /** A character that is no separator, `|` or `\` upper-cases to no metacharacter. */
  lemma LiteralChar(c: char)
    requires !IsSeparator(c) && c != '|' && c != '\\'
    ensures !IsRegexMeta(UpperChar(c))
  {
  }

  /** The filter callback: it returns the term itself, so the empty term is
      falsy and never kept, and otherwise the upper-cased term must contain
      the (upper-cased) query. */
  predicate Matches(term: string, q: string)
  {
    term != "" && Includes(Upper(term), q)
  }

  /** `dictionary_terms.filter(...)`: the matching terms in list order. */
  function MatchingTerms(terms: seq<string>, q: string): (r: seq<string>)
    ensures forall t :: multiset(r)[t] == if Matches(t, q) then multiset(terms)[t] else 0
  {
    if terms == [] then []
    else
      assert terms == [terms[0]] + terms[1..];
      (if Matches(terms[0], q) then [terms[0]] else []) + MatchingTerms(terms[1..], q)
  }

  /** The sort key: `levenshteinDistance(term.toUpperCase(), query)`, which
      fills its table with the query along the rows. */
  function Rank(q: string): string -> int
  {
    t => EditDistance.Distance(q, Upper(t))
  }

  /** `getSuggestions`: the terms whose upper-cased form contains the
      upper-cased query, each as often as the list holds it, nearest first,
      with equally near terms in list order. */
  function GetSuggestions(terms: seq<string>, query: string): (r: seq<string>)
    requires IsLiteralPattern(Upper(query))
    ensures forall t :: multiset(r)[t] == if Matches(t, Upper(query)) then multiset(terms)[t] else 0
    ensures StableSort.SortedBy(r, Rank(Upper(query)))
    ensures forall k :: StableSort.WithKey(r, Rank(Upper(query)), k) ==
                        StableSort.WithKey(MatchingTerms(terms, Upper(query)), Rank(Upper(query)), k)
  {
    var q := Upper(query);
    var candidates := MatchingTerms(terms, q);
    StableSort.SortByProperties(candidates, Rank(q));
    StableSort.SortBy(candidates, Rank(q))
  }

  /** The order `getSuggestions` gives is the only one a stable sort can give. */
  lemma SuggestionsUnique(terms: seq<string>, query: string, r: seq<string>)
    requires IsLiteralPattern(Upper(query))
    requires StableSort.SortedBy(r, Rank(Upper(query)))
    requires forall k :: StableSort.WithKey(r, Rank(Upper(query)), k) ==
                         StableSort.WithKey(MatchingTerms(terms, Upper(query)), Rank(Upper(query)), k)
    ensures r == GetSuggestions(terms, query)
  {
    StableSort.StableSortUnique(r, MatchingTerms(terms, Upper(query)), Rank(Upper(query)));
  }

  // ---------------------------------------------------------------------------
  // selectSuggestion
  // ---------------------------------------------------------------------------

  /** The case rule: the term is lower-cased when the typed word starts with a
      character that upper-casing changes and the term's second character is
      one too; otherwise it is inserted as it is. By `UpperCharChanges`, the
      characters upper-casing changes are the lower-case letters. */
  function AdaptCase(first: char, value: string): (r: string)
    ensures |r| == |value| && Upper(r) == Upper(value)
    ensures r == value || r == Lower(value)
    ensures r != value ==> IsLowerLetter(first) && |value| > 1 && IsLowerLetter(value[1])
    ensures IsLowerLetter(first) && |value| > 1 && IsLowerLetter(value[1]) ==>
              forall i :: 0 <= i < |r| ==> !IsUpperLetter(r[i])
  {
    UpperOfLower(value);
    UpperCharChanges(first);
    if first != UpperChar(first) && |value| > 1 && value[1] != UpperChar(value[1]) then Lower(value)
    else value
  }

  lemma AdaptCaseExamples()
    ensures AdaptCase('d', "Dog") == "dog"
    ensures AdaptCase('d', "DNA") == "DNA"
    ensures AdaptCase('d', "D2x") == "D2x"
    ensures AdaptCase('D', "Dog") == "Dog"
  {
    assert Lower("Dog") == "dog";
  }

  /** What `selectSuggestion` does with `value` for the cursor at `ch`: the
      rescanned span is replaced by the adapted term in `[[...]]`. When the
      span is empty, `.at(0)` is `undefined` and the call to `toUpperCase`
      throws before anything is replaced (`None`). */
  function SelectionAt(line: string, ch: nat, value: string): Option<Edit>
  {
    var s, e := ScanStart(line, ch - 1), ScanEnd(line, ch - 1);
    var span := Substring(line, s, e);
    if |span| == 0 then None
    else Some(Edit(s, e, "[[" + AdaptCase(span[0], value) + "]]"))
  }

  /** `selectSuggestion` */
  method SelectSuggestion(line: string, ch: nat, value: string) returns (r: Option<Edit>)
    ensures r == SelectionAt(line, ch, value)
  {
    var start, end := ScanBounds(line, ch);
    var span := Substring(line, start, end);
    if |span| == 0 {
      return None;
    }
    var v := AdaptCase(span[0], value);
    r := Some(Edit(start, end, "[[" + v + "]]"));
  }

  /** Selecting right after a trigger replaces exactly the triggering word. */
  lemma SelectionReplacesTrigger(line: string, ch: nat, value: string)
    requires TriggerAt(line, ch).Some?
    ensures var t := TriggerAt(line, ch).value;
      SelectionAt(line, ch, value) == Some(Edit(t.start, t.end, "[[" + AdaptCase(t.query[0], value) + "]]"))
  {
  }
}
