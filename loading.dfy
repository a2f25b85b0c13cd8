/** What `load_gettext_translations` does to the catalog store, as a fold over
    the directory listing. Each entry carries what the filesystem and babel's
    `Translations.load` would report for it. */
module Loading {
  import opened Catalogs

  /** The result of `Translations.load` for one sub-directory. */
  datatype LoadOutcome = LoadOk(messages: Messages) | LoadFailed

  /** One name of `os.listdir(directory)`, whether it is a plain file, and the
      outcome of loading its catalog. */
  datatype DirEntry = DirEntry(name: string, isFile: bool, outcome: LoadOutcome)

  /** The store's abstract content: locale code to message table. */
  type StoreContents = map<string, Messages>

  /** `name.startswith('.')`: version-control and other hidden directories. */
  predicate IsHidden(name: string)
  {
    |name| > 0 && name[0] == '.'
  }

  /** Entries that reach `Translations.load` (locale.py:73-76). */
  predicate Considered(e: DirEntry)
  {
    !IsHidden(e.name) && !e.isFile
  }

  /** Entries whose catalog ends up in the store. */
  predicate Contributes(e: DirEntry)
  {
    Considered(e) && e.outcome.LoadOk?
  }

  /** One pass of the loop body (locale.py:73-86). */
  function LoadStep(store: StoreContents, e: DirEntry): (r: StoreContents)
    ensures !Contributes(e) ==> r == store
    ensures Contributes(e) ==> r.Keys == store.Keys + {e.name}
    ensures Contributes(e) ==> r[e.name] == if e.name in store then Merged(store[e.name], e.outcome.messages)
                                           else e.outcome.messages
    ensures forall k :: k in store && k != e.name ==> r[k] == store[k]
  {
    if !Considered(e) then store
    else match e.outcome
      case LoadFailed => store
      case LoadOk(m) => if e.name in store then store[e.name := Merged(store[e.name], m)] else store[e.name := m]
  }

  /** The whole loop over the listing, entry by entry in listing order. */
  function Load(store: StoreContents, entries: seq<DirEntry>): (r: StoreContents)
    ensures store.Keys <= r.Keys
  {
    if entries == [] then store
    else LoadStep(Load(store, entries[..|entries| - 1]), entries[|entries| - 1])
  }

  /** The names whose catalogs were loaded. */
  function LoadedNames(entries: seq<DirEntry>): set<string>
  {
    set i | 0 <= i < |entries| && Contributes(entries[i]) :: entries[i].name
  }

  /** After the load the store holds exactly the old codes and the names of the
      entries that loaded. */
  lemma {:induction false} LoadKeys(store: StoreContents, entries: seq<DirEntry>)
    ensures Load(store, entries).Keys == store.Keys + LoadedNames(entries)
  {
    if entries != [] {
      var init, last := entries[..|entries| - 1], entries[|entries| - 1];
      LoadKeys(store, init);
      assert entries == init + [last];
      assert LoadedNames(entries) == LoadedNames(init) + (if Contributes(last) then {last.name} else {}) by {
        forall n | n in LoadedNames(entries) ensures n in LoadedNames(init) || (Contributes(last) && n == last.name) {
          var i :| 0 <= i < |entries| && Contributes(entries[i]) && entries[i].name == n;
          if i < |init| { assert init[i] == entries[i]; }
        }
        forall n | n in LoadedNames(init) ensures n in LoadedNames(entries) {
          var i :| 0 <= i < |init| && Contributes(init[i]) && init[i].name == n;
          assert entries[i] == init[i];
        }
      }
    }
  }

  /** Loading a listing in two parts is loading the first part and then the
      second. */
  lemma {:induction false} LoadAppend(store: StoreContents, first: seq<DirEntry>, second: seq<DirEntry>)
    ensures Load(store, first + second) == Load(Load(store, first), second)
  {
    if second == [] {
      assert first + second == first;
    } else {
      var init, last := second[..|second| - 1], second[|second| - 1];
      LoadAppend(store, first, init);
      assert (first + second)[..|first + second| - 1] == first + init;
      assert (first + second)[|first + second| - 1] == last;
    }
  }

  /** An entry that is hidden, a plain file or fails to load changes nothing:
      the load continues with the next entry as if it were absent. */
  lemma LoadSkipsEntry(store: StoreContents, before: seq<DirEntry>, e: DirEntry, after: seq<DirEntry>)
    requires !Contributes(e)
    ensures Load(store, before + [e] + after) == Load(store, before + after)
  {
    LoadAppend(store, before + [e], after);
    LoadAppend(store, before, [e]);
    assert Load(Load(store, before), [e]) == LoadStep(Load(Load(store, before), []), e);
    LoadAppend(store, before, after);
  }

  /** A code no entry loads keeps its catalog unchanged. */
  lemma {:induction false} LoadKeepsUntouched(store: StoreContents, entries: seq<DirEntry>, code: string)
    requires code in store
    requires code !in LoadedNames(entries)
    ensures Load(store, entries)[code] == store[code]
  {
    if entries != [] {
      var init := entries[..|entries| - 1];
      assert code !in LoadedNames(init);
      LoadKeepsUntouched(store, init, code);
    }
  }

  /** Loading one more entry is one more step of the loop. */
  lemma LoadSnoc(store: StoreContents, before: seq<DirEntry>, e: DirEntry)
    ensures Load(store, before + [e]) == LoadStep(Load(store, before), e)
  {
    assert (before + [e])[..|before + [e]| - 1] == before;
  }

  /** Two catalogs for the same code, with other entries before, between and
      after them, are merged: a key of either is kept, and the later one wins
      where both have it. No entry between or after them may load a catalog
      for that code. */
  lemma LoadMergesSameCode(store: StoreContents, first: seq<DirEntry>, e1: DirEntry, middle: seq<DirEntry>,
                           e2: DirEntry, last: seq<DirEntry>, key: MessageKey)
    requires Contributes(e1) && Contributes(e2) && e1.name == e2.name
    requires e1.name !in LoadedNames(middle) && e1.name !in LoadedNames(last)
    requires key in e1.outcome.messages || key in e2.outcome.messages
    ensures e1.name in Load(store, first + [e1] + middle + [e2] + last)
    ensures key in Load(store, first + [e1] + middle + [e2] + last)[e1.name]
    ensures Load(store, first + [e1] + middle + [e2] + last)[e1.name][key]
         == if key in e2.outcome.messages then e2.outcome.messages[key] else e1.outcome.messages[key]
  {
    var code := e1.name;
    LoadSnoc(store, first, e1);
    var s1 := Load(store, first + [e1]);
    assert code in s1 && (key in e1.outcome.messages ==> key in s1[code] && s1[code][key] == e1.outcome.messages[key]);
    LoadAppend(store, first + [e1], middle);
    LoadKeepsUntouched(s1, middle, code);
    var s2 := Load(s1, middle);
    LoadSnoc(store, first + [e1] + middle, e2);
    var s3 := LoadStep(s2, e2);
    LoadAppend(store, first + [e1] + middle + [e2], last);
    LoadKeepsUntouched(s3, last, code);
  }

  /** The same across two calls of the loader: a catalog loaded for a code by
      a later call is merged into the one an earlier call loaded. */
  lemma LoadMergesAcrossLoads(store: StoreContents, before1: seq<DirEntry>, e1: DirEntry, after1: seq<DirEntry>,
                              before2: seq<DirEntry>, e2: DirEntry, after2: seq<DirEntry>, key: MessageKey)
    requires Contributes(e1) && Contributes(e2) && e1.name == e2.name
    requires e1.name !in LoadedNames(after1) && e1.name !in LoadedNames(before2) && e1.name !in LoadedNames(after2)
    requires key in e1.outcome.messages || key in e2.outcome.messages
    ensures e1.name in Load(Load(store, before1 + [e1] + after1), before2 + [e2] + after2)
    ensures key in Load(Load(store, before1 + [e1] + after1), before2 + [e2] + after2)[e1.name]
    ensures Load(Load(store, before1 + [e1] + after1), before2 + [e2] + after2)[e1.name][key]
         == if key in e2.outcome.messages then e2.outcome.messages[key] else e1.outcome.messages[key]
  {
    var middle := after1 + before2;
    LoadedNamesAppend(after1, before2);
    LoadMergesSameCode(store, before1, e1, middle, e2, after2, key);
    assert before1 + [e1] + middle + [e2] + after2 == (before1 + [e1] + after1) + (before2 + [e2] + after2);
    LoadAppend(store, before1 + [e1] + after1, before2 + [e2] + after2);
  }

  /** The names loaded from a concatenated listing are those of its parts. */
  lemma LoadedNamesAppend(a: seq<DirEntry>, b: seq<DirEntry>)
    ensures LoadedNames(a + b) == LoadedNames(a) + LoadedNames(b)
  {
    forall n | n in LoadedNames(a + b) ensures n in LoadedNames(a) + LoadedNames(b) {
      var i :| 0 <= i < |a + b| && Contributes((a + b)[i]) && (a + b)[i].name == n;
      if i < |a| {
        assert (a + b)[i] == a[i];
      } else {
        assert (a + b)[i] == b[i - |a|];
      }
    }
    forall n | n in LoadedNames(a) ensures n in LoadedNames(a + b) {
      var i :| 0 <= i < |a| && Contributes(a[i]) && a[i].name == n;
      assert (a + b)[i] == a[i];
    }
    forall n | n in LoadedNames(b) ensures n in LoadedNames(a + b) {
      var i :| 0 <= i < |b| && Contributes(b[i]) && b[i].name == n;
      assert (a + b)[|a| + i] == b[i];
    }
  }

  /** A load never removes a message from the store: merging only adds keys
      or overrides their text. */
  lemma {:induction false} LoadNeverDropsKeys(store: StoreContents, entries: seq<DirEntry>, code: string, key: MessageKey)
    requires code in store && key in store[code]
    ensures code in Load(store, entries) && key in Load(store, entries)[code]
  {
    if entries != [] {
      LoadNeverDropsKeys(store, entries[..|entries| - 1], code, key);
    }
  }
}
