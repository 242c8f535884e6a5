/**
 * `DictionaryDevDictAddition`: a definition written inline as
 * `!!!<name>: <description>!!!` is offered as a new term; accepting it asks
 * the vault for a record `<name>.md` holding the description, in a folder
 * under `Dictionary/` that mirrors the current note's path, and replaces the
 * marked text with a `[[name]]` link.
 */
module DictAddition {
  import opened Wrappers
  import opened JsString
  import opened Editor

  /** `dictionary_name`: the root folder of the term store. */
  const DictionaryName: string := "Dictionary"

  const Marker: string := "!!!"

  const NameEnd: string := ": "

  /** Where the first marker is, where the next one after it is, and where
      the first `": "` after the first marker is (each -1 when absent). */
  function OpenIndex(line: string): int { IndexOf(line, Marker, 0) }

  function CloseIndex(line: string): int { IndexOf(line, Marker, OpenIndex(line) + 3) }

  function DefinitionIndex(line: string): int { IndexOf(line, NameEnd, OpenIndex(line)) }

  /** `onTrigger`: the range runs from the opening marker to the start of the
      closing one, and the query is the text between the markers. */
  function OnTrigger(line: string): (r: Option<Trigger>)
    ensures |line| <= 6 ==> r.None?
    ensures r.Some? ==>
      r.value.start == OpenIndex(line) && r.value.end == CloseIndex(line) &&
      0 <= r.value.start && r.value.start + 4 <= r.value.end && r.value.end + 3 <= |line| &&
      OccursAt(line, Marker, r.value.start) && OccursAt(line, Marker, r.value.end) &&
      r.value.query == line[r.value.start + 3..r.value.end]
  {
    if |line| <= 6 then None
    else
      var open, close, def := OpenIndex(line), CloseIndex(line), DefinitionIndex(line);
      if close - open < 4 || open == -1 || close == -1 || def - open < 4 || close - def <= 0 then None
      else Some(Trigger(open, close, Substring(line, open + 3, close)))
  }

  /** `getSuggestions`: the only suggestion is the definition itself. */
  function GetSuggestions(query: string): (r: seq<string>)
    ensures |r| == 1 && r[0] == query
  {
    [query]
  }

  /** The name of a definition: everything before its first `": "` (empty
      when there is none, since `substring(0, -1)` is empty). */
  function NameOf(value: string): (r: string)
    ensures |r| <= |value| && r == value[..|r|]
    ensures IndexOf(value, NameEnd, 0) == -1 ==> r == ""
    ensures IndexOf(value, NameEnd, 0) != -1 ==> OccursAt(value, NameEnd, |r|)
    ensures IndexOf(value, NameEnd, 0) != -1 ==> |r| == IndexOf(value, NameEnd, 0)
  {
    Substring(value, 0, IndexOf(value, NameEnd, 0))
  }

  /** The description: everything after the first `": "` (everything after
      the first character when there is none, since `substring(1)` is taken). */
  function DescriptionOf(value: string): (r: string)
    ensures |r| <= |value| && r == value[|value| - |r|..]
    ensures IndexOf(value, NameEnd, 0) != -1 ==> |r| == |value| - IndexOf(value, NameEnd, 0) - 2
    ensures IndexOf(value, NameEnd, 0) == -1 && value != "" ==> r == value[1..]
  {
    SubstringFrom(value, IndexOf(value, NameEnd, 0) + 2)
  }

  /** A request `selectSuggestion` makes of the vault. */
  datatype VaultRequest = CreateFolder(path: string) | CreateFile(path: string, body: string)

  /** What accepting a definition does: the vault requests, in order, and the edit to the line. */
  datatype Acceptance = Acceptance(requests: seq<VaultRequest>, edit: Edit)

  /** The folder for the current note: the note's path without its last three
      characters (the `.md` extension), under `Dictionary/`. */
  function FolderFor(notePath: string): (r: string)
    ensures |notePath| >= 3 ==> r == DictionaryName + "/" + notePath[..|notePath| - 3]
    ensures |notePath| < 3 ==> r == DictionaryName + "/"
  {
    DictionaryName + "/" + Substring(notePath, 0, |notePath| - 3)
  }

  /** `selectSuggestion` for the note at `notePath`, whose folder in the term
      store exists or not, with the cursor on `line`: the vault requests in
      the order they are made, and the edit to the line. */
  function SelectSuggestion(notePath: string, folderExists: bool, value: string, line: string): (a: Acceptance)
    ensures |a.requests| == if folderExists then 1 else 2
    ensures !folderExists ==> a.requests[0] == CreateFolder(FolderFor(notePath))
    ensures a.requests[|a.requests| - 1] ==
              CreateFile(FolderFor(notePath) + "/" + NameOf(value) + ".md", DescriptionOf(value))
    ensures a.edit == Edit(OpenIndex(line), CloseIndex(line) + 3, "[[" + NameOf(value) + "]]")
  {
    var folder := FolderFor(notePath);
    var name, description := NameOf(value), DescriptionOf(value);
    var open := OpenIndex(line);
    var close := IndexOf(line, Marker, open + 3);
    Acceptance((if folderExists then [] else [CreateFolder(folder)]) +
                 [CreateFile(folder + "/" + name + ".md", description)],
               Edit(open, close + 3, "[[" + name + "]]"))
  }

  // ---------------------------------------------------------------------------
  // Properties
  // ---------------------------------------------------------------------------

  /** `IndexOf` returns `j` when `j` is an occurrence with none before it. */
  lemma IndexOfIs(s: string, pat: string, from: int, j: int)
    requires Clamp(from, |s|) <= j && OccursAt(s, pat, j)
    requires forall k :: Clamp(from, |s|) <= k < j ==> !OccursAt(s, pat, k)
    ensures IndexOf(s, pat, from) == j
  {
  }

  /** An occurrence inside a slice is an occurrence in the whole string that fits in the slice. */
  lemma OccursInSlice(s: string, pat: string, lo: nat, hi: nat, k: int)
    requires lo <= hi <= |s|
    ensures OccursAt(s[lo..hi], pat, k) <==> 0 <= k && OccursAt(s, pat, lo + k) && lo + k + |pat| <= hi
  {
    if 0 <= k && k + |pat| <= hi - lo {
      var inSlice, inWhole := s[lo..hi][k..k + |pat|], s[lo + k..lo + k + |pat|];
      forall m | 0 <= m < |pat| ensures inSlice[m] == inWhole[m] {
        assert s[lo..hi][k + m] == s[lo + k + m];
      }
      assert inSlice == inWhole;
    }
  }

  /** No `": "` starts on a marker character. */
  lemma NotOnMarker(line: string, m: int, k: int)
    requires OccursAt(line, Marker, m) && m <= k < m + 3
    ensures !OccursAt(line, NameEnd, k)
  {
    assert line[k] == '!' by { assert line[m..m + 3][k - m] == line[k]; }
  }

  /** A `": "` that starts before a marker ends before it too. */
  lemma NoStraddle(line: string, def: int, close: int)
    requires OccursAt(line, NameEnd, def) && OccursAt(line, Marker, close) && def < close
    ensures def + 2 <= close
  {
    assert line[def + 1] == ' ' by { assert line[def..def + 2][1] == line[def + 1]; }
    assert line[close] == '!' by { assert line[close..close + 3][0] == line[close]; }
  }

  /** When the text between the markers has a `": "`, the first one after
      the opening marker is its first one. */
  lemma {:induction false} DefinitionInBody(line: string)
    requires OpenIndex(line) != -1 && CloseIndex(line) != -1
    requires IndexOf(line[OpenIndex(line) + 3..CloseIndex(line)], NameEnd, 0) != -1
    ensures DefinitionIndex(line) == OpenIndex(line) + 3 + IndexOf(line[OpenIndex(line) + 3..CloseIndex(line)], NameEnd, 0)
  {
    var open, close := OpenIndex(line), CloseIndex(line);
    var j := IndexOf(line[open + 3..close], NameEnd, 0);
    FirstInBody(line, open, close, line[open + 3..close], j);
    IndexOfIs(line, NameEnd, open, open + 3 + j);
  }

  /** The first `": "` of the text after a marker is the line's first one
      from the marker on. */
  lemma FirstInBody(line: string, open: int, close: int, body: string, j: int)
    requires OccursAt(line, Marker, open) && open + 3 <= close <= |line|
    requires body == line[open + 3..close]
    requires OccursAt(body, NameEnd, j)
    requires forall k :: 0 <= k < j ==> !OccursAt(body, NameEnd, k)
    ensures OccursAt(line, NameEnd, open + 3 + j)
    ensures forall k :: open <= k < open + 3 + j ==> !OccursAt(line, NameEnd, k)
  {
    OccursInSlice(line, NameEnd, open + 3, close, j);
    forall k | open <= k < open + 3 + j ensures !OccursAt(line, NameEnd, k) {
      if k < open + 3 {
        NotOnMarker(line, open, k);
      } else {
        OccursInSlice(line, NameEnd, open + 3, close, k - (open + 3));
      }
    }
  }

  /** When the text between the markers has no `": "`, the first one after
      the opening marker (if any) is at or past the closing marker. */
  lemma {:induction false} DefinitionNotInBody(line: string)
    requires OpenIndex(line) != -1 && CloseIndex(line) != -1
    requires IndexOf(line[OpenIndex(line) + 3..CloseIndex(line)], NameEnd, 0) == -1
    ensures DefinitionIndex(line) == -1 || DefinitionIndex(line) >= CloseIndex(line)
  {
    var open, close, def := OpenIndex(line), CloseIndex(line), DefinitionIndex(line);
    if def != -1 && def < close {
      if def < open + 3 {
        NotOnMarker(line, open, def);
      } else {
        NoStraddle(line, def, close);
        OccursInSlice(line, NameEnd, open + 3, close, def - (open + 3));
      }
    }
  }

  /** A trigger is found exactly when the line is longer than six characters,
      has an opening marker and a later closing marker, and the text between
      them has a `": "` after at least one character of name. */
  lemma {:induction false} TriggerIff(line: string)
    ensures OnTrigger(line).Some? <==>
      |line| > 6 && OpenIndex(line) != -1 && CloseIndex(line) != -1 &&
      IndexOf(line[OpenIndex(line) + 3..CloseIndex(line)], NameEnd, 0) >= 1
  {
    var open, close := OpenIndex(line), CloseIndex(line);
    if open != -1 && close != -1 {
      if IndexOf(line[open + 3..close], NameEnd, 0) != -1 {
        DefinitionInBody(line);
      } else {
        DefinitionNotInBody(line);
      }
    }
  }

  /** On success: the range starts at the first marker, a marker starts at
      the range's end, the first `": "` after the opening marker lies between
      them with at least one character before it, and the query is the text
      between the markers. */
  lemma {:induction false} TriggerShape(line: string)
    requires OnTrigger(line).Some?
    ensures var t := OnTrigger(line).value;
      var def := DefinitionIndex(line);
      OccursAt(line, Marker, t.start) && (forall k :: 0 <= k < t.start ==> !OccursAt(line, Marker, k)) &&
      OccursAt(line, Marker, t.end) && t.start + 3 <= t.end &&
      t.start + 4 <= def && def + 2 <= t.end && OccursAt(line, NameEnd, def) &&
      t.query == line[t.start + 3..t.end]
  {
    NoStraddle(line, DefinitionIndex(line), CloseIndex(line));
  }

  /** The description may be empty: nothing rejects `!!!name: !!!`. */
  lemma EmptyDescriptionAccepted(name: string)
    requires |name| >= 1
    requires forall i :: 0 <= i < |name| ==> name[i] != '!' && name[i] != ':'
    ensures OnTrigger(Marker + name + NameEnd + Marker) == Some(Trigger(0, |name| + 5, name + NameEnd))
  {
    var line := Marker + name + NameEnd + Marker;
    EmptyDefinitionMarkers(name);
    EmptyDefinitionNameEnd(name);
    assert line[3..|name| + 5] == name + NameEnd;
  }

  /** In `!!!name: !!!` the markers are found at 0 and just after `": "`. */
  lemma EmptyDefinitionMarkers(name: string)
    requires forall i :: 0 <= i < |name| ==> name[i] != '!'
    ensures var line := Marker + name + NameEnd + Marker;
      OpenIndex(line) == 0 && CloseIndex(line) == |name| + 5
  {
    var line := Marker + name + NameEnd + Marker;
    var n := |name|;
    assert line[..3] == Marker && line[n + 5..] == Marker;
    assert forall k :: 3 <= k < n + 3 ==> line[k] == name[k - 3];
    assert line[n + 3] == ':' && line[n + 4] == ' ';
    IndexOfIs(line, Marker, 0, 0);
    forall k | 3 <= k < n + 5 ensures !OccursAt(line, Marker, k) {
      assert line[k..k + 3][0] == line[k];
    }
    IndexOfIs(line, Marker, 3, n + 5);
  }

  /** In `!!!name: !!!` the first `": "` is the one after the name. */
  lemma EmptyDefinitionNameEnd(name: string)
    requires forall i :: 0 <= i < |name| ==> name[i] != ':'
    ensures DefinitionIndex(Marker + name + NameEnd + Marker) == |name| + 3
  {
    var line := Marker + name + NameEnd + Marker;
    var n := |name|;
    assert line[..3] == Marker && line[n + 3..n + 5] == NameEnd;
    assert forall k :: 3 <= k < n + 3 ==> line[k] == name[k - 3];
    forall k | 0 <= k < n + 3 ensures !OccursAt(line, NameEnd, k) {
      assert line[k..k + 2][0] == line[k];
      if k < 3 {
        assert line[..3][k] == line[k];
      }
    }
    assert Clamp(OpenIndex(line), |line|) >= 0;
    IndexOfIs(line, NameEnd, OpenIndex(line), n + 3);
  }

  /** When the value has a `": "`, the name and the description are the text
      around its first one: they put the value back together, and the name
      holds no `": "`. */
  lemma SplitRoundTrip(value: string)
    requires Includes(value, NameEnd)
    ensures NameOf(value) + NameEnd + DescriptionOf(value) == value
    ensures !Includes(NameOf(value), NameEnd)
  {
    var i := IndexOf(value, NameEnd, 0);
    IncludesIffIndexOf(value, NameEnd);
    assert value == value[..i] + value[i..i + 2] + value[i + 2..];
    if Includes(NameOf(value), NameEnd) {
      var k :| 0 <= k <= |NameOf(value)| && OccursAt(NameOf(value), NameEnd, k);
      assert value[..i][k..k + 2] == value[k..k + 2];
      assert OccursAt(value, NameEnd, k);
    }
  }

  /** The definition a trigger reports splits into a non-empty name, the
      text before the first `": "` after the opening marker, and a description. */
  lemma {:induction false} TriggerNameNonEmpty(line: string)
    requires OnTrigger(line).Some?
    ensures var q := OnTrigger(line).value.query;
      NameOf(q) == line[OpenIndex(line) + 3..DefinitionIndex(line)] && NameOf(q) != "" &&
      NameOf(q) + NameEnd + DescriptionOf(q) == q
  {
    var q := OnTrigger(line).value.query;
    var open, close := OpenIndex(line), CloseIndex(line);
    QueryDefinition(line);
    var j := IndexOf(q, NameEnd, 0);
    assert NameOf(q) == q[..j] == line[open + 3..open + 3 + j];
    IncludesIffIndexOf(q, NameEnd);
    SplitRoundTrip(q);
  }

  /** The first `": "` of a trigger's query is the line's first one after
      the opening marker, and it is not at the query's start. */
  lemma QueryDefinition(line: string)
    requires OnTrigger(line).Some?
    ensures var q := OnTrigger(line).value.query;
      IndexOf(q, NameEnd, 0) >= 1 &&
      DefinitionIndex(line) == OpenIndex(line) + 3 + IndexOf(q, NameEnd, 0)
  {
    TriggerIff(line);
    DefinitionInBody(line);
  }

  /** Accepting the suggestion right after a trigger on the same line: the
      record is `<name>.md` in the note's folder under `Dictionary/`, its body
      is the description, and the whole marked text, markers included,
      becomes `[[name]]`. */
  lemma {:induction false} AcceptDefinition(line: string, notePath: string, folderExists: bool)
    requires OnTrigger(line).Some?
    requires |notePath| >= 3
    ensures var t := OnTrigger(line).value;
      var value := GetSuggestions(t.query)[0];
      var a := SelectSuggestion(notePath, folderExists, value, line);
      var folder := "Dictionary/" + notePath[..|notePath| - 3];
      a.requests == (if folderExists then [] else [CreateFolder(folder)]) +
                    [CreateFile(folder + "/" + NameOf(value) + ".md", DescriptionOf(value))] &&
      a.edit == Edit(t.start, t.end + 3, "[[" + NameOf(value) + "]]") &&
      line[a.edit.from..a.edit.to] == Marker + t.query + Marker
  {
    var t := OnTrigger(line).value;
    var value := GetSuggestions(t.query)[0];
    var a := SelectSuggestion(notePath, folderExists, value, line);
    var folder := "Dictionary/" + notePath[..|notePath| - 3];
    assert FolderFor(notePath) == folder;
    MarkedText(line);
  }

  /** The text a trigger's edit covers is the query between its two markers. */
  lemma MarkedText(line: string)
    requires OnTrigger(line).Some?
    ensures var t := OnTrigger(line).value;
      t.end + 3 <= |line| && line[t.start..t.end + 3] == Marker + t.query + Marker
  {
    var t := OnTrigger(line).value;
    BetweenMarkers(line, t.start, t.end);
  }

  lemma BetweenMarkers(line: string, open: int, close: int)
    requires 0 <= open && open + 3 <= close && close + 3 <= |line|
    requires OccursAt(line, Marker, open) && OccursAt(line, Marker, close)
    ensures line[open..close + 3] == Marker + line[open + 3..close] + Marker
  {
    assert line[open..close + 3] == line[open..open + 3] + line[open + 3..close] + line[close..close + 3];
  }
}
