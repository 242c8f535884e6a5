/**
 * `DictionaryDev.onload`: the in-memory list of known terms (`dictionary_terms`),
 * filled by walking the `Dictionary` folder and kept up to date by the
 * vault's `create` and `rename` notifications.
 */
module TermStore {
  import opened JsString

  /** An entry of the vault: a file, or a folder with its children. */
  datatype Entry = File(name: string) | Folder(name: string, children: seq<Entry>)

  /** The term a file name stands for: the name without its last three
      characters (`.md`); `substring` gives "" for a shorter name. */
  function StripExtension(name: string): (r: string)
    ensures |name| >= 3 ==> r + name[|name| - 3..] == name
    ensures |name| < 3 ==> r == ""
  {
    Substring(name, 0, |name| - 3)
  }

  function Size(e: Entry): nat
  {
    match e
    case File(_) => 1
    case Folder(_, children) => 1 + SizeAll(children)
  }

  function SizeAll(es: seq<Entry>): nat
  {
    if es == [] then 0 else Size(es[0]) + SizeAll(es[1..])
  }

  lemma SizeAllFirst(es: seq<Entry>)
    requires es != []
    ensures SizeAll(es) == Size(es[0]) + SizeAll(es[1..])
    ensures es[0].Folder? ==> Size(es[0]) == 1 + SizeAll(es[0].children)
    ensures Size(es[0]) >= 1
  {
  }

  lemma {:induction false} SizeAllAppend(a: seq<Entry>, b: seq<Entry>)
    ensures SizeAll(a + b) == SizeAll(a) + SizeAll(b)
  {
    if a == [] {
      assert a + b == b;
    } else {
      assert (a + b)[1..] == a[1..] + b;
      SizeAllAppend(a[1..], b);
    }
  }

  /** The terms the initial walk adds for the worklist `work`, in the order it
      adds them: a file gives its stripped name, a folder puts its children
      at the end of the worklist. */
  function Walk(work: seq<Entry>): seq<string>
    decreases SizeAll(work)
  {
    if work == [] then []
    else
      SizeAllFirst(work);
      match work[0]
      case File(name) => [StripExtension(name)] + Walk(work[1..])
      case Folder(_, children) =>
        SizeAllAppend(work[1..], children);
        Walk(work[1..] + children)
  }

  /** The stripped names of all files in `es` and below, each counted once
      per file, whatever the order. */
  function FileTerms(es: seq<Entry>): multiset<string>
    decreases SizeAll(es), 1
  {
    if es == [] then multiset{} else EntryTerms(es[0]) + FileTerms(es[1..])
  }

  function EntryTerms(e: Entry): multiset<string>
    decreases Size(e), 0
  {
    match e
    case File(name) => multiset{StripExtension(name)}
    case Folder(_, children) => FileTerms(children)
  }

  lemma {:induction false} FileTermsAppend(a: seq<Entry>, b: seq<Entry>)
    ensures FileTerms(a + b) == FileTerms(a) + FileTerms(b)
  {
    if a == [] {
      assert a + b == b;
    } else {
      assert (a + b)[1..] == a[1..] + b;
      FileTermsAppend(a[1..], b);
    }
  }

  /** The walk adds one term per file of the tree, the file's stripped name,
      and nothing for a folder. */
  lemma {:induction false} WalkAddsEveryFile(work: seq<Entry>)
    ensures multiset(Walk(work)) == FileTerms(work)
    decreases SizeAll(work)
  {
    if work != [] {
      SizeAllFirst(work);
      match work[0]
      case File(name) =>
        WalkAddsEveryFile(work[1..]);
      case Folder(_, children) =>
        SizeAllAppend(work[1..], children);
        WalkAddsEveryFile(work[1..] + children);
        FileTermsAppend(work[1..], children);
    }
  }

  /** The `create` handler's effect: the stripped name is appended when the
      path mentions the dictionary folder and the name is not yet listed. */
  function AfterCreate(terms: seq<string>, path: string, name: string): seq<string>
  {
    var term := StripExtension(name);
    if Includes(path, "Dictionary") && term !in terms then terms + [term] else terms
  }

  /** `Array.remove`, taken to remove every occurrence. */
  function RemoveAll(terms: seq<string>, x: string): (r: seq<string>)
    ensures x !in r
    ensures forall t :: t != x ==> multiset(r)[t] == multiset(terms)[t]
  {
    if terms == [] then []
    else
      assert terms == [terms[0]] + terms[1..];
      (if terms[0] == x then [] else [terms[0]]) + RemoveAll(terms[1..], x)
  }

  /** The term an old path stood for: the text after its last `/`, without
      the last three characters of the path. */
  function OldTerm(oldPath: string): string
  {
    Substring(oldPath, LastIndexOf(oldPath, '/') + 1, |oldPath| - 3)
  }

  /** The `rename` handler's effect: the old term is removed, then the new
      stripped name is appended, wherever the file now is. */
  function AfterRename(terms: seq<string>, name: string, oldPath: string): seq<string>
  {
    RemoveAll(terms, OldTerm(oldPath)) + [StripExtension(name)]
  }

  /** `dictionary_terms` */
  class TermList {
    var terms: seq<string>

    /** The list starts empty. */
    constructor ()
      ensures terms == []
    {
      terms := [];
    }

    /** The initial walk: `children` is the dictionary folder's children; the
        worklist grows as folders are met and every file's term is pushed. */
    method Load(children: seq<Entry>)
      modifies this
      ensures terms == old(terms) + Walk(children)
    {
      var work := children;
      var i := 0;
      while i < |work|
        invariant 0 <= i <= |work|
        invariant terms + Walk(work[i..]) == old(terms) + Walk(children)
        decreases SizeAll(work[i..])
      {
        var entry := work[i];
        assert work[i..] == [entry] + work[i + 1..];
        SizeAllFirst(work[i..]);
        if entry.Folder? {
          SizeAllAppend(work[i + 1..], entry.children);
          assert (work + entry.children)[i + 1..] == work[i + 1..] + entry.children;
          work := work + entry.children;
          i := i + 1;
          continue;
        }
        terms := terms + [StripExtension(entry.name)];
        i := i + 1;
      }
    }

    /** The `create` handler for a new vault entry at `path` named `name`. */
    method OnCreate(path: string, name: string)
      modifies this
      ensures terms == AfterCreate(old(terms), path, name)
    {
      var term := StripExtension(name);
      if Includes(path, "Dictionary") && term !in terms {
        terms := terms + [term];
      }
    }

    /** The `rename` handler for an entry now named `name`, formerly at `oldPath`. */
    method OnRename(name: string, oldPath: string)
      modifies this
      ensures terms == AfterRename(old(terms), name, oldPath)
    {
      terms := RemoveAll(terms, OldTerm(oldPath));
      terms := terms + [StripExtension(name)];
    }
  }

  // ---------------------------------------------------------------------------
  // Properties
  // ---------------------------------------------------------------------------

  /** No term is listed twice. */
  predicate Distinct(terms: seq<string>)
  {
    forall i, j :: 0 <= i < j < |terms| ==> terms[i] != terms[j]
  }

  /** `create` adds the file's term exactly when the path mentions the
      dictionary folder and the term is new, and it never adds a duplicate. */
  lemma CreateKeepsDistinct(terms: seq<string>, path: string, name: string)
    requires Distinct(terms)
    ensures Distinct(AfterCreate(terms, path, name))
    ensures StripExtension(name) in AfterCreate(terms, path, name) <==>
              StripExtension(name) in terms || Includes(path, "Dictionary")
    ensures forall t :: t != StripExtension(name) ==> (t in AfterCreate(terms, path, name) <==> t in terms)
  {
  }

  /** After a rename the new term is listed and, when it differs, the old one is not. */
  lemma RenameMovesTerm(terms: seq<string>, name: string, oldPath: string)
    ensures StripExtension(name) in AfterRename(terms, name, oldPath)
    ensures OldTerm(oldPath) != StripExtension(name) ==> OldTerm(oldPath) !in AfterRename(terms, name, oldPath)
    ensures forall t :: t != OldTerm(oldPath) && t != StripExtension(name) ==>
              multiset(AfterRename(terms, name, oldPath))[t] == multiset(terms)[t]
  {
  }

  /** For a file in a folder, the term the rename handler removes is the
      one the file's stripped name gave. */
  lemma OldTermIsStrippedName(folder: string, name: string)
    requires |name| >= 3 && '/' !in name
    ensures OldTerm(folder + "/" + name) == StripExtension(name)
  {
    var path := folder + "/" + name;
    assert path[|folder|] == '/';
    assert forall k :: |folder| < k < |path| ==> path[k] == name[k - |folder| - 1];
    assert LastIndexOf(path, '/') == |folder|;
    assert path[|folder| + 1..|path| - 3] == name[..|name| - 3];
  }

  /** Unlike `create`, `rename` appends without checking: renaming a file to a
      name that is already listed, other than its old one, lists it twice. */
  lemma RenameCanDuplicate(terms: seq<string>, name: string, oldPath: string)
    requires StripExtension(name) in terms && StripExtension(name) != OldTerm(oldPath)
    ensures !Distinct(AfterRename(terms, name, oldPath))
  {
    var r := AfterRename(terms, name, oldPath);
    var kept := RemoveAll(terms, OldTerm(oldPath));
    assert multiset(kept)[StripExtension(name)] == multiset(terms)[StripExtension(name)];
    assert StripExtension(name) in kept;
    var i :| 0 <= i < |kept| && kept[i] == StripExtension(name);
    assert r[i] == r[|r| - 1];
  }
}
