/** Saving quiz answers to `localStorage` and writing them back into the
    form on the next visit. Storage is an abstract map from keys to stored
    text. `JSON.stringify` and `JSON.parse` are parameters: an encoder from
    a response snapshot to text, and a decoder that may fail. */
module Storage {
  import opened Wrappers
  import opened Quiz

  /** The browser's key/value store. */
  type Store = map<string, string>

  /** The key every snapshot is saved under. */
  const StorageKey: string := "anticonceptivos_history_progress"

  /** A response snapshot: field name to field value, as `Object.fromEntries`
      builds it. */
  type Snapshot = map<string, string>

  /** What the decoder can give back. `JSON.parse` can give `null`; `Falsy` is
      any other falsy value (`false`, `0`, `""`); `Value` is any truthy value,
      carrying the list `Object.entries` makes of it. */
  datatype Parsed = Null | Falsy | Value(entries: seq<Entry>)

  /** Why a call throws. */
  datatype StorageError = SaveFailed | NotAnObject

  // ---------------------------------------------------------------------
  // Object.fromEntries
  // ---------------------------------------------------------------------

  /** Some entry carries the name `k`. */
  ghost predicate HasName(entries: seq<Entry>, k: string) {
    exists i :: 0 <= i < |entries| && entries[i].0 == k
  }

  /** No later entry carries the same name as entry `i`. */
  ghost predicate LastOfName(entries: seq<Entry>, i: int)
    requires 0 <= i < |entries|
  {
    forall j :: i < j < |entries| ==> entries[j].0 != entries[i].0
  }

  /** The names of a list are those of all but its last entry, and the
      last entry's. */
  lemma HasNameSnoc(entries: seq<Entry>)
    requires entries != []
    ensures forall k :: HasName(entries, k) <==> HasName(entries[..|entries| - 1], k) || k == entries[|entries| - 1].0
  {
    var init := entries[..|entries| - 1];
    forall k ensures HasName(entries, k) <==> HasName(init, k) || k == entries[|entries| - 1].0 {
      if HasName(init, k) {
        var i :| 0 <= i < |init| && init[i].0 == k;
        assert entries[i].0 == k;
      }
      if HasName(entries, k) && k != entries[|entries| - 1].0 {
        var i :| 0 <= i < |entries| && entries[i].0 == k;
        assert init[i].0 == k;
      }
    }
  }

  /** An entry that is last of its name in a list is, unless it is the
      final entry, last of its name without the final entry, and has
      another name. */
  lemma LastOfNameSnoc(entries: seq<Entry>)
    requires entries != []
    ensures forall i :: 0 <= i < |entries| - 1 && LastOfName(entries, i) ==>
              LastOfName(entries[..|entries| - 1], i) && entries[i].0 != entries[|entries| - 1].0
  {
  }

  /** `Object.fromEntries`: every name becomes a key, and when a name
      repeats, its last entry gives the value. */
  function FromEntries(entries: seq<Entry>): (m: Snapshot)
    ensures forall k :: k in m <==> HasName(entries, k)
    ensures forall i :: 0 <= i < |entries| ==> entries[i].0 in m
    ensures forall i :: 0 <= i < |entries| && LastOfName(entries, i) ==> m[entries[i].0] == entries[i].1
  {
    if entries == [] then map[]
    else
      var init := entries[..|entries| - 1];
      var last := entries[|entries| - 1];
      HasNameSnoc(entries);
      LastOfNameSnoc(entries);
      assert forall i :: 0 <= i < |init| ==> init[i] == entries[i];
      FromEntries(init)[last.0 := last.1]
  }

  /** A further entry overrides its name's value. */
  lemma FromEntriesSnoc(entries: seq<Entry>, e: Entry)
    ensures FromEntries(entries + [e]) == FromEntries(entries)[e.0 := e.1]
  {
    assert (entries + [e])[..|entries|] == entries;
  }

  // ---------------------------------------------------------------------
  // StorageManager.saveData / getData
  // ---------------------------------------------------------------------

  /** `saveData` (and `saveProgress`): stores the encoded snapshot under
      `key`. `writable` says whether `setItem` succeeds; when it throws (a
      full or disabled store), the call throws in turn and the store is as
      it was. A successful save replaces only `key`. */
  function SaveData(store: Store, key: string, data: Snapshot,
                    encode: Snapshot -> string, writable: bool): (r: Result<Store, StorageError>)
    ensures r.Success? <==> writable
    ensures r.Failure? ==> r.error == SaveFailed
    ensures r.Success? ==> r.value.Keys == store.Keys + {key}
    ensures r.Success? ==> r.value[key] == encode(data)
    ensures r.Success? ==> forall k :: k in store && k != key ==> r.value[k] == store[k]
  {
    if writable then Success(store[key := encode(data)]) else Failure(SaveFailed)
  }

  /** The improved script's `saveProgress`: `saveData` under the fixed
      key. */
  function SaveProgress(store: Store, data: Snapshot, encode: Snapshot -> string,
                        writable: bool): (r: Result<Store, StorageError>)
    ensures r.Success? <==> writable
    ensures r.Success? ==> r.value.Keys == store.Keys + {StorageKey}
    ensures r.Success? ==> r.value[StorageKey] == encode(data)
    ensures r.Success? ==> forall k :: k in store && k != StorageKey ==> r.value[k] == store[k]
  {
    SaveData(store, StorageKey, data, encode, writable)
  }

  /** `getData`: `null` (here `None`) when the key is absent, when the
      stored text is empty (an empty string is falsy), or when decoding
      throws; otherwise whatever the decoder gives. */
  function GetData(store: Store, key: string, decode: string -> Option<Parsed>): (r: Option<Parsed>)
    ensures key !in store ==> r.None?
    ensures key in store && store[key] == "" ==> r.None?
    ensures key in store && decode(store[key]).None? ==> r.None?
    ensures key in store && store[key] != "" ==> r == decode(store[key])
    ensures r.Some? ==> key in store && store[key] != "" && decode(store[key]) == r
  {
    if key in store && store[key] != "" then decode(store[key]) else None
  }

  /** Reading back right after a successful save gives what the decoder
      makes of the encoded snapshot, provided it encodes to non-empty text;
      no claim is made that decoding undoes encoding. */
  lemma SaveThenGet(store: Store, key: string, data: Snapshot,
                    encode: Snapshot -> string, decode: string -> Option<Parsed>)
    requires encode(data) != ""
    ensures var r := SaveData(store, key, data, encode, true);
            r.Success? && GetData(r.value, key, decode) == decode(encode(data))
  {
  }

  /** A save to one key never changes what another key reads back, and a
      failed save changes nothing. */
  lemma SaveIsolated(store: Store, key: string, other: string, data: Snapshot,
                     encode: Snapshot -> string, decode: string -> Option<Parsed>, writable: bool)
    requires other != key || !writable
    ensures var r := SaveData(store, key, data, encode, writable);
            GetData(if r.Success? then r.value else store, other, decode) == GetData(store, other, decode)
  {
  }

  // ---------------------------------------------------------------------
  // Autosave on input
  // ---------------------------------------------------------------------

  /** `new FormData(form).entries()`: the name and value of every control
      that has a name, in document order. */
  function FormEntries(form: Form): (r: seq<Entry>)
    ensures |r| <= |form|
    ensures forall k :: 0 <= k < |r| ==> r[k].0 != ""
    ensures |form| == 1 ==> r == (if form[0].name != "" then [(form[0].name, form[0].value)] else [])
  {
    if form == [] then []
    else
      var last := form[|form| - 1];
      FormEntries(form[..|form| - 1]) + (if last.name != "" then [(last.name, last.value)] else [])
  }

  /** The entries of two runs of controls are those of the first run
      followed by those of the second. With the one-control case this
      pins the form data down: the named controls, in order, and nothing
      else. */
  lemma {:induction false} FormEntriesAppend(a: Form, b: Form)
    ensures FormEntries(a + b) == FormEntries(a) + FormEntries(b)
    decreases |b|
  {
    if b == [] {
      assert a + b == a;
    } else {
      var n := |b| - 1;
      assert (a + b)[..|a + b| - 1] == a + b[..n];
      FormEntriesAppend(a, b[..n]);
    }
  }

  /** Every named control has its entry, at the position given by the
      number of entries of the controls before it. */
  lemma FormEntriesAt(form: Form, i: nat)
    requires i < |form| && form[i].name != ""
    ensures var k := |FormEntries(form[..i])|;
            k < |FormEntries(form)| && FormEntries(form)[k] == (form[i].name, form[i].value)
  {
    assert form[..i + 1] + form[i + 1..] == form;
    assert form[..i + 1][..i] == form[..i];
    FormEntriesAppend(form[..i + 1], form[i + 1..]);
  }

  /** The snapshot the input handler saves: `Object.fromEntries` of the
      form data. */
  function Responses(form: Form): Snapshot {
    FromEntries(FormEntries(form))
  }

  /** What a successful autosave leaves behind: the store, and the
      progress counts `updateProgress` redraws the bar from. */
  datatype Autosave = Autosave(store: Store, progress: Progress)

  /** The input handler (after its debounce): saves the snapshot under the
      fixed key and then refreshes the progress bar. When the save throws,
      the refresh is skipped and an error banner is shown, which is not
      modelled. */
  function HandleQuizInput(store: Store, form: Form, encode: Snapshot -> string, writable: bool): (r: Result<Autosave, StorageError>)
    ensures r.Success? <==> writable
    ensures r.Failure? ==> r.error == SaveFailed
    ensures r.Success? ==> r.value.store.Keys == store.Keys + {StorageKey}
    ensures r.Success? ==> r.value.store[StorageKey] == encode(Responses(form))
    ensures r.Success? ==> forall k :: k in store && k != StorageKey ==> r.value.store[k] == store[k]
    ensures r.Success? ==> r.value.progress == FormProgress(form)
  {
    match SaveProgress(store, Responses(form), encode, writable)
    case Success(saved) => Success(Autosave(saved, FormProgress(form)))
    case Failure(e) => Failure(e)
  }

  // ---------------------------------------------------------------------
  // Writing saved values back into the form
  // ---------------------------------------------------------------------

  /** Names `form.elements[name]` resolves to a member of the collection
      rather than to a control: its methods `item` and `namedItem`, and the
      members every object inherits. Setting `value` on one of them changes
      no control. */
  const CollectionMembers: set<string> := {"item", "namedItem"} + ObjectPrototypeNames

  /** `form.elements[name]` can yield a control for this name: the empty
      string is never a name the collection exposes, and a member's name
      yields the member. */
  predicate Resolves(name: string) {
    name != "" && name !in CollectionMembers
  }

  /** Field `i` is the control `form.elements[name]` yields for its name:
      the name resolves and no other control carries it. Two controls with
      one name yield a `RadioNodeList`, whose `value` setter leaves text
      controls alone. */
  ghost predicate Found(form: Form, i: int)
    requires 0 <= i < |form|
  {
    Resolves(form[i].name) && forall j :: 0 <= j < |form| && j != i ==> form[j].name != form[i].name
  }

  /** The positions of the controls carrying `name`, in increasing order. */
  function Positions(form: Form, name: string): (r: seq<nat>)
    ensures forall k :: 0 <= k < |r| ==> r[k] < |form| && form[r[k]].name == name
    ensures forall i :: 0 <= i < |form| && form[i].name == name ==> i in r
    ensures forall k, l :: 0 <= k < l < |r| ==> r[k] < r[l]
  {
    if form == [] then []
    else
      var n := |form| - 1;
      var p := Positions(form[..n], name);
      assert forall i :: 0 <= i < n ==> form[..n][i] == form[i];
      if form[n].name == name then p + [n] else p
  }

  /** A control carrying `name` is found exactly when the name resolves and
      it is the only control carrying it. */
  lemma FoundByPositions(form: Form, name: string)
    ensures forall i :: 0 <= i < |form| && form[i].name == name ==>
              (Found(form, i) <==> Resolves(name) && Positions(form, name) == [i])
  {
    var p := Positions(form, name);
    forall i | 0 <= i < |form| && form[i].name == name
      ensures Found(form, i) <==> Resolves(name) && p == [i]
    {
      assert i in p;
      if p == [i] {
        forall j | 0 <= j < |form| && j != i ensures form[j].name != form[i].name {
          assert j !in p;
        }
      } else {
        var other := if p[0] == i then p[1] else p[0];
        assert other != i && form[other].name == name;
      }
    }
  }

  /** `form.elements[name]` when it yields a single control: that control's
      position. */
  function NamedItem(form: Form, name: string): (r: Option<nat>)
    ensures r.Some? ==> r.value < |form| && form[r.value].name == name && Found(form, r.value)
    ensures r.None? ==> forall i :: 0 <= i < |form| && form[i].name == name ==> !Found(form, i)
  {
    FoundByPositions(form, name);
    var p := Positions(form, name);
    if Resolves(name) && |p| == 1 then Some(p[0]) else None
  }

  /** `after` is `before` with every saved value written into the control
      its name finds; every other field, and every name and `required`
      flag, is as it was. */
  ghost predicate Restores(before: Form, after: Form, saved: Snapshot) {
    && |after| == |before|
    && (forall i :: 0 <= i < |before| ==> after[i].name == before[i].name && after[i].required == before[i].required)
    && (forall i :: 0 <= i < |before| ==>
          after[i].value == (if Found(before, i) && before[i].name in saved
                             then saved[before[i].name] else before[i].value))
  }

  /** One `input.value = value` step: the control that `elements[name]`
      yields gets the value; when it yields none, nothing changes. */
  function Assign(form: Form, name: string, value: string): (r: Form)
    ensures |r| == |form|
    ensures forall i :: 0 <= i < |form| ==> r[i].name == form[i].name && r[i].required == form[i].required
    ensures forall i :: 0 <= i < |form| ==>
              r[i].value == (if form[i].name == name && Found(form, i) then value else form[i].value)
  {
    match NamedItem(form, name)
    case None => form
    case Some(i) => form[i := form[i].(value := value)]
  }

  /** Forms with the same names in the same order find the same fields. */
  lemma SameNamesSameFound(a: Form, b: Form)
    requires |a| == |b|
    requires forall i :: 0 <= i < |a| ==> a[i].name == b[i].name
    ensures forall i :: 0 <= i < |a| ==> (Found(a, i) <==> Found(b, i))
  {
  }

  /** `Object.entries(savedData).forEach(...)`: assigns every saved entry in
      order. The outcome restores exactly the snapshot `Object.fromEntries`
      would make of the entries: fields whose name is not saved, and later
      fields sharing a name, keep their value. */
  function ApplyEntries(form: Form, entries: seq<Entry>): (r: Form)
    ensures Restores(form, r, FromEntries(entries))
  {
    if entries == [] then form
    else
      var init := entries[..|entries| - 1];
      var last := entries[|entries| - 1];
      var mid := ApplyEntries(form, init);
      SameNamesSameFound(mid, form);
      Assign(mid, last.0, last.1)
  }

  // ---------------------------------------------------------------------
  // loadSavedProgress, two variants
  // ---------------------------------------------------------------------

  /** The form after a load (absent when the page has no quiz form) and
      whether the progress bar was refreshed. */
  datatype Restored = Restored(form: Option<Form>, refreshed: bool)

  /** `Object.entries`: the list of a truthy or falsy non-null value;
      `null` makes it throw. */
  function Entries(p: Parsed): (r: Result<seq<Entry>, StorageError>)
    ensures r.Failure? <==> p.Null?
    ensures p.Falsy? ==> r == Success([])
    ensures p.Value? ==> r == Success(p.entries)
  {
    match p
    case Null => Failure(NotAnObject)
    case Falsy => Success([])
    case Value(entries) => Success(entries)
  }

  /** The snapshot a load writes back: the saved entries when the stored
      text decodes to a truthy value, and nothing otherwise. */
  function Saved(store: Store, decode: string -> Option<Parsed>): Snapshot {
    var savedData := GetData(store, StorageKey, decode);
    if savedData.Some? && savedData.value.Value? then FromEntries(savedData.value.entries) else map[]
  }

  /** The module variant: reads through `getData` and, when it gives a
      truthy value and the form exists, writes the entries back and
      refreshes the progress bar. Otherwise nothing happens. */
  function LoadSavedProgress(store: Store, decode: string -> Option<Parsed>, form: Option<Form>): (r: Restored)
    ensures r.form.Some? <==> form.Some?
    ensures form.Some? ==> Restores(form.value, r.form.value, Saved(store, decode))
    ensures r.refreshed <==> form.Some? && GetData(store, StorageKey, decode).Some? && GetData(store, StorageKey, decode).value.Value?
  {
    var savedData := GetData(store, StorageKey, decode);
    if savedData.Some? && savedData.value.Value? && form.Some? then
      Restored(Some(ApplyEntries(form.value, savedData.value.entries)), true)
    else
      assert form.Some? ==> Saved(store, decode) == map[];
      Restored(form, false)
  }

  /** The inline variant: parses the stored text itself, inside a `try`.
      Absent or empty text does nothing; text that fails to parse, or
      parses to `null` (on which `Object.entries` throws), is caught and
      does nothing; any other value has its entries written back and the
      progress bar refreshed. */
  function LoadSavedProgressInline(store: Store, decode: string -> Option<Parsed>, form: Option<Form>): (r: Restored)
    ensures r.form.Some? <==> form.Some?
    ensures form.Some? ==> Restores(form.value, r.form.value, Saved(store, decode))
    ensures r.refreshed <==> form.Some? && GetData(store, StorageKey, decode).Some? && !GetData(store, StorageKey, decode).value.Null?
  {
    if StorageKey in store && store[StorageKey] != "" && form.Some? then
      match decode(store[StorageKey])
      case None => Restored(form, false)
      case Some(responses) =>
        match Entries(responses)
        case Failure(_) => Restored(form, false)
        case Success(entries) =>
          assert entries == [] || Saved(store, decode) == FromEntries(entries);
          Restored(Some(ApplyEntries(form.value, entries)), true)
    else
      Restored(form, false)
  }

  /** Two forms that restore the same snapshot from the same starting form
      are equal. */
  lemma RestoresUnique(before: Form, a: Form, b: Form, saved: Snapshot)
    requires Restores(before, a, saved) && Restores(before, b, saved)
    ensures a == b
  {
    assert forall i :: 0 <= i < |a| ==> a[i] == b[i];
  }

  /** Both variants leave the form in the same state. They differ only in
      whether the progress bar is refreshed, and only when the stored text
      decodes to a falsy non-null value: the inline variant then walks an
      empty entry list and refreshes, the module variant skips. */
  lemma LoadVariantsAgree(store: Store, decode: string -> Option<Parsed>, form: Option<Form>)
    ensures LoadSavedProgressInline(store, decode, form).form == LoadSavedProgress(store, decode, form).form
    ensures LoadSavedProgressInline(store, decode, form).refreshed != LoadSavedProgress(store, decode, form).refreshed
            <==> form.Some? && GetData(store, StorageKey, decode) == Some(Falsy)
  {
    var a := LoadSavedProgressInline(store, decode, form);
    var b := LoadSavedProgress(store, decode, form);
    if form.Some? {
      RestoresUnique(form.value, a.form.value, b.form.value, Saved(store, decode));
    }
  }

  /** With nothing usable in the store, a load leaves the form untouched. */
  lemma NothingSavedNothingChanges(store: Store, decode: string -> Option<Parsed>, form: Form)
    requires GetData(store, StorageKey, decode).None?
    ensures LoadSavedProgress(store, decode, Some(form)) == Restored(Some(form), false)
    ensures LoadSavedProgressInline(store, decode, Some(form)) == Restored(Some(form), false)
  {
    var r := LoadSavedProgressInline(store, decode, Some(form));
    assert Saved(store, decode) == map[];
    RestoresUnique(form, r.form.value, form, map[]);
  }

  /** No two named controls share a name. */
  ghost predicate DistinctNames(form: Form) {
    forall i, j :: 0 <= i < j < |form| && form[i].name != "" ==> form[i].name != form[j].name
  }

  /** Adding a control at the end adds its entry to the snapshot, when it
      has a name. */
  lemma ResponsesSnoc(form: Form)
    requires form != []
    ensures var n := |form| - 1;
            Responses(form) == if form[n].name != "" then Responses(form[..n])[form[n].name := form[n].value]
                               else Responses(form[..n])
  {
    var n := |form| - 1;
    var es := FormEntries(form[..n]);
    if form[n].name != "" {
      var e := (form[n].name, form[n].value);
      assert FormEntries(form) == es + [e];
      FromEntriesSnoc(es, e);
      assert Responses(form) == FromEntries(es + [e]);
    } else {
      assert FormEntries(form) == es + [];
      assert es + [] == es;
      assert Responses(form) == FromEntries(es);
    }
  }

  /** Dropping the last control keeps names distinct. */
  lemma DistinctNamesPrefix(form: Form)
    requires form != [] && DistinctNames(form)
    ensures DistinctNames(form[..|form| - 1])
  {
    var init := form[..|form| - 1];
    assert forall i :: 0 <= i < |init| ==> init[i] == form[i];
  }

  /** One step of the induction below, over plain maps: a snapshot that
      holds the values of the named controls before the last one still
      holds them once the last control's entry is added, and holds the
      last one's too. */
  lemma SnapshotStep(form: Form, before: Snapshot, after: Snapshot)
    requires form != [] && DistinctNames(form)
    requires var n := |form| - 1;
             after == if form[n].name != "" then before[form[n].name := form[n].value] else before
    requires var init := form[..|form| - 1];
             forall i :: 0 <= i < |init| && init[i].name != "" ==> init[i].name in before && before[init[i].name] == init[i].value
    ensures forall i :: 0 <= i < |form| && form[i].name != "" ==> form[i].name in after && after[form[i].name] == form[i].value
  {
    var n := |form| - 1;
    var init := form[..n];
    forall i | 0 <= i < n && form[i].name != ""
      ensures form[i].name in after && after[form[i].name] == form[i].value
    {
      assert init[i] == form[i];
      assert form[i].name != form[n].name;
    }
  }

  /** With distinct names, the snapshot holds every named control's own
      value. */
  lemma {:induction false} ResponsesOfDistinct(form: Form)
    requires DistinctNames(form)
    ensures forall i :: 0 <= i < |form| && form[i].name != "" ==>
              form[i].name in Responses(form) && Responses(form)[form[i].name] == form[i].value
    decreases |form|
  {
    if form != [] {
      var init := form[..|form| - 1];
      DistinctNamesPrefix(form);
      ResponsesOfDistinct(init);
      ResponsesSnoc(form);
      SnapshotStep(form, Responses(init), Responses(form));
    }
  }

  /** Restoring a form's own snapshot into a page with the same controls
      brings back the value of every control whose name finds it, and
      leaves the page's value in every other control. */
  lemma RestoreOwnSnapshot(page: Form, form: Form, after: Form)
    requires DistinctNames(form)
    requires |page| == |form|
    requires forall i :: 0 <= i < |form| ==> page[i].name == form[i].name && page[i].required == form[i].required
    requires Restores(page, after, Responses(form))
    ensures |after| == |form|
    ensures forall i :: 0 <= i < |form| ==> after[i] == (if Resolves(form[i].name) then form[i] else page[i])
  {
    ResponsesOfDistinct(form);
    forall i | 0 <= i < |form| ensures after[i] == (if Resolves(form[i].name) then form[i] else page[i]) {
      if Resolves(form[i].name) {
        forall j | 0 <= j < |page| && j != i ensures page[j].name != page[i].name {
          if j < i && form[j].name != "" {
            assert form[j].name != form[i].name;
          } else if i < j {
            assert form[i].name != form[j].name;
          }
        }
        assert Found(page, i);
      }
    }
  }

  /** Saving a form's answers and loading them into a page whose form has
      the same controls brings back every answer whose control the loader
      can find by name, and refreshes the progress bar, provided the
      decoder gives back the entries of the snapshot that was encoded. */
  lemma RestoreAfterSave(store: Store, form: Form, page: Form, encode: Snapshot -> string,
                         decode: string -> Option<Parsed>, parsed: seq<Entry>)
    requires DistinctNames(form)
    requires |page| == |form|
    requires forall i :: 0 <= i < |form| ==> page[i].name == form[i].name && page[i].required == form[i].required
    requires encode(Responses(form)) != ""
    requires decode(encode(Responses(form))) == Some(Value(parsed))
    requires FromEntries(parsed) == Responses(form)
    ensures var saved := HandleQuizInput(store, form, encode, true);
            saved.Success? &&
            var r := LoadSavedProgressInline(saved.value.store, decode, Some(page));
            && r.refreshed && r.form.Some? && |r.form.value| == |form|
            && (forall i :: 0 <= i < |form| ==> r.form.value[i] == (if Resolves(form[i].name) then form[i] else page[i]))
            && LoadSavedProgress(saved.value.store, decode, Some(page)) == r
  {
    var saved := HandleQuizInput(store, form, encode, true).value.store;
    assert GetData(saved, StorageKey, decode) == Some(Value(parsed));
    assert Saved(saved, decode) == Responses(form);
    var m := LoadSavedProgress(saved, decode, Some(page));
    RestoreOwnSnapshot(page, form, m.form.value);
    LoadVariantsAgree(saved, decode, Some(page));
  }
}
