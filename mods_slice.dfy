/** The mods slice of the renderer's Redux store (src/renderer/src/store/slices/modsSlice.ts):
    the mod list with its loading and error flags, the search and sort settings, the
    reducers and thunk cases that update them in place, and the `selectFilteredMods`
    selector. */
module ModsSlice {
  import opened Wrappers
  import opened Text
  import opened Types
  import opened Rows

  // ---------------------------------------------------------------- selection

  datatype SortKey = ByName | ByDate | BySize
  datatype SortOrder = Asc | Desc

  /** The search filter: an empty term matches every mod; otherwise the lower-cased term
      occurs in the lower-cased name, author or filename. */
  predicate MatchesSearch(m: ModInfo, term: string) {
    term == []
      || Contains(Lower(m.name), Lower(term))
      || Contains(Lower(m.author), Lower(term))
      || Contains(Lower(m.filename), Lower(term))
  }

  /** The category filter: an empty category matches every mod. */
  predicate MatchesCategory(m: ModInfo, category: string) {
    category == [] || CategoryName(m.category) == category
  }

  predicate Passes(m: ModInfo, term: string, category: string) {
    MatchesSearch(m, term) && MatchesCategory(m, category)
  }

  /** `mods.filter(...)`: the mods that pass both filters, in list order. */
  function Filtered(mods: seq<ModInfo>, term: string, category: string): (r: seq<ModInfo>)
    ensures forall m :: m in r <==> m in mods && Passes(m, term, category)
    ensures |r| <= |mods|
  {
    if mods == [] then []
    else
      var rest := Filtered(mods[1..], term, category);
      assert forall m :: m in mods <==> m == mods[0] || m in mods[1..];
      if Passes(mods[0], term, category) then [mods[0]] + rest else rest
  }

  /** The comparator's verdict that `a` may come before `b`: the comparator does not
      return a positive number. Names compare lower-cased, code unit by code unit. */
  predicate InOrder(a: ModInfo, b: ModInfo, key: SortKey, order: SortOrder) {
    match (key, order)
    case (ByName, Asc) => LexLe(Lower(a.name), Lower(b.name))
    case (ByName, Desc) => LexLe(Lower(b.name), Lower(a.name))
    case (ByDate, Asc) => a.lastModified <= b.lastModified
    case (ByDate, Desc) => b.lastModified <= a.lastModified
    case (BySize, Asc) => a.fileSize <= b.fileSize
    case (BySize, Desc) => b.fileSize <= a.fileSize
  }

  /** Every pair of mods is ordered one way or the other, and the order is transitive. */
  lemma InOrderTotalPreorder(key: SortKey, order: SortOrder)
    ensures TotalPreorder((a: ModInfo, b: ModInfo) => InOrder(a, b, key, order))
  {
    var le := (a: ModInfo, b: ModInfo) => InOrder(a, b, key, order);
    forall a: ModInfo, b: ModInfo ensures le(a, b) || le(b, a) {
      LexLeTotal(Lower(a.name), Lower(b.name));
    }
    forall a: ModInfo, b: ModInfo, c: ModInfo | le(a, b) && le(b, c) ensures le(a, c) {
      if key == ByName {
        if order == Asc {
          LexLeTrans(Lower(a.name), Lower(b.name), Lower(c.name));
        } else {
          LexLeTrans(Lower(c.name), Lower(b.name), Lower(a.name));
        }
      }
    }
  }

  /** `array.sort(compare)` in place: insertion by adjacent swaps, moving an element only
      past elements the comparator puts after it. */
  method SortInPlace<T(!new)>(a: array<T>, le: (T, T) -> bool)
    requires TotalPreorder(le)
    modifies a
    ensures SortedBy(a[..], le)
    ensures multiset(a[..]) == multiset(old(a[..]))
  {
    var i := 0;
    while i < a.Length
      invariant 0 <= i <= a.Length
      invariant SortedBy(a[..i], le)
      invariant multiset(a[..]) == multiset(old(a[..]))
    {
      SinkLast(a, i, le);
      i := i + 1;
    }
    assert a[..i] == a[..];
  }

  /** Move `a[i]` down past the elements before it that must come after it. */
  method SinkLast<T(!new)>(a: array<T>, i: nat, le: (T, T) -> bool)
    requires TotalPreorder(le) && i < a.Length && SortedBy(a[..i], le)
    modifies a
    ensures SortedBy(a[..i + 1], le)
    ensures multiset(a[..]) == multiset(old(a[..]))
    ensures a[i + 1..] == old(a[i + 1..])
  {
    var j := i;
    while j > 0 && !le(a[j - 1], a[j])
      invariant 0 <= j <= i
      invariant multiset(a[..]) == multiset(old(a[..]))
      invariant a[i + 1..] == old(a[i + 1..])
      invariant forall p, q :: 0 <= p < q <= i && q != j && p != j ==> le(a[p], a[q])
      invariant forall q :: j < q <= i ==> le(a[j], a[q])
    {
      Swap(a, j - 1, j);
      j := j - 1;
    }
  }

  /** Exchange two elements; the multiset of elements and everything else stay the same. */
  method Swap<T>(a: array<T>, p: nat, q: nat)
    requires p < q < a.Length
    modifies a
    ensures a[..] == old(a[..])[p := old(a[q])][q := old(a[p])]
    ensures multiset(a[..]) == multiset(old(a[..]))
  {
    a[p], a[q] := a[q], a[p];
  }

  /** The `Partial<ModInfo> & { id }` payload of updateModInState: the fields it carries. */
  datatype ModPatch = ModPatch(
    id: string,
    name: Option<string>,
    filename: Option<string>,
    version: Option<string>,
    author: Option<string>,
    filePath: Option<string>,
    fileSize: Option<nat>,
    fileHash: Option<string>,
    lastModified: Option<int>,
    enabled: Option<bool>,
    category: Option<ModCategory>,
    conflicts: Option<seq<string>>,
    dependencies: Option<seq<string>>,
    curseforgeId: Option<Option<int>>,
    downloadUrl: Option<Option<string>>,
    thumbnailUrl: Option<Option<string>>,
    description: Option<Option<string>>,
    tags: Option<seq<string>>,
    rating: Option<Option<int>>,
    installDate: Option<int>,
    lastUsed: Option<Option<int>>)

  /** `{ ...m, ...p }`: each field the patch carries replaces the mod's. */
  function Merge(m: ModInfo, p: ModPatch): (r: ModInfo)
    ensures r.id == p.id
    ensures p.name.Some? ==> r.name == p.name.value
    ensures p.name.None? ==> r.name == m.name
    ensures p.filename.Some? ==> r.filename == p.filename.value
    ensures p.filename.None? ==> r.filename == m.filename
    ensures p.version.Some? ==> r.version == p.version.value
    ensures p.version.None? ==> r.version == m.version
    ensures p.author.Some? ==> r.author == p.author.value
    ensures p.author.None? ==> r.author == m.author
    ensures p.filePath.Some? ==> r.filePath == p.filePath.value
    ensures p.filePath.None? ==> r.filePath == m.filePath
    ensures p.fileSize.Some? ==> r.fileSize == p.fileSize.value
    ensures p.fileSize.None? ==> r.fileSize == m.fileSize
    ensures p.fileHash.Some? ==> r.fileHash == p.fileHash.value
    ensures p.fileHash.None? ==> r.fileHash == m.fileHash
    ensures p.lastModified.Some? ==> r.lastModified == p.lastModified.value
    ensures p.lastModified.None? ==> r.lastModified == m.lastModified
    ensures p.enabled.Some? ==> r.enabled == p.enabled.value
    ensures p.enabled.None? ==> r.enabled == m.enabled
    ensures p.category.Some? ==> r.category == p.category.value
    ensures p.category.None? ==> r.category == m.category
    ensures p.conflicts.Some? ==> r.conflicts == p.conflicts.value
    ensures p.conflicts.None? ==> r.conflicts == m.conflicts
    ensures p.dependencies.Some? ==> r.dependencies == p.dependencies.value
    ensures p.dependencies.None? ==> r.dependencies == m.dependencies
    ensures p.curseforgeId.Some? ==> r.curseforgeId == p.curseforgeId.value
    ensures p.curseforgeId.None? ==> r.curseforgeId == m.curseforgeId
    ensures p.downloadUrl.Some? ==> r.downloadUrl == p.downloadUrl.value
    ensures p.downloadUrl.None? ==> r.downloadUrl == m.downloadUrl
    ensures p.thumbnailUrl.Some? ==> r.thumbnailUrl == p.thumbnailUrl.value
    ensures p.thumbnailUrl.None? ==> r.thumbnailUrl == m.thumbnailUrl
    ensures p.description.Some? ==> r.description == p.description.value
    ensures p.description.None? ==> r.description == m.description
    ensures p.tags.Some? ==> r.tags == p.tags.value
    ensures p.tags.None? ==> r.tags == m.tags
    ensures p.rating.Some? ==> r.rating == p.rating.value
    ensures p.rating.None? ==> r.rating == m.rating
    ensures p.installDate.Some? ==> r.installDate == p.installDate.value
    ensures p.installDate.None? ==> r.installDate == m.installDate
    ensures p.lastUsed.Some? ==> r.lastUsed == p.lastUsed.value
    ensures p.lastUsed.None? ==> r.lastUsed == m.lastUsed
  {
    ModInfo(p.id, p.name.GetOr(m.name), p.filename.GetOr(m.filename), p.version.GetOr(m.version),
      p.author.GetOr(m.author), p.filePath.GetOr(m.filePath), p.fileSize.GetOr(m.fileSize),
      p.fileHash.GetOr(m.fileHash), p.lastModified.GetOr(m.lastModified), p.enabled.GetOr(m.enabled),
      p.category.GetOr(m.category), p.conflicts.GetOr(m.conflicts), p.dependencies.GetOr(m.dependencies),
      p.curseforgeId.GetOr(m.curseforgeId), p.downloadUrl.GetOr(m.downloadUrl),
      p.thumbnailUrl.GetOr(m.thumbnailUrl), p.description.GetOr(m.description), p.tags.GetOr(m.tags),
      p.rating.GetOr(m.rating), p.installDate.GetOr(m.installDate), p.lastUsed.GetOr(m.lastUsed))
  }

  /** An empty patch leaves a mod with the same id as it was. */
  lemma MergeEmpty(m: ModInfo)
    ensures Merge(m, ModPatch(m.id, None, None, None, None, None, None, None, None, None, None,
      None, None, None, None, None, None, None, None, None, None)) == m
  {
  }

  /** The three thunks whose pending and rejected cases the slice handles alike. */
  datatype ModsThunk = ScanMods | EnableMod | DisableMod

  /** The fixed message a rejected thunk falls back to. */
  function DefaultError(t: ModsThunk): string {
    match t
    case ScanMods => "Failed to scan mods"
    case EnableMod => "Failed to enable mod"
    case DisableMod => "Failed to disable mod"
  }

  /** The whole state of the slice, as one value. */
  datatype ModsState = ModsState(
    mods: seq<ModInfo>,
    loading: bool,
    error: Option<string>,
    conflicts: Option<ConflictReport>,
    searchTerm: string,
    selectedCategory: string,
    sortBy: SortKey,
    sortOrder: SortOrder)

  /** The slice's draft state, which reducers update in place. */
  class ModsStore {
    var mods: seq<ModInfo>
    var loading: bool
    var error: Option<string>
    var conflicts: Option<ConflictReport>
    var searchTerm: string
    var selectedCategory: string
    var sortBy: SortKey
    var sortOrder: SortOrder

    function State(): ModsState
      reads this
    {
      ModsState(mods, loading, error, conflicts, searchTerm, selectedCategory, sortBy, sortOrder)
    }

    /** initialState: no mods, no error, no filters, sorted by name ascending. */
    constructor()
      ensures State() == ModsState([], false, None, None, "", "", ByName, Asc)
    {
      mods, loading, error, conflicts := [], false, None, None;
      searchTerm, selectedCategory, sortBy, sortOrder := "", "", ByName, Asc;
    }

    method SetSearchTerm(term: string)
      modifies this
      ensures State() == old(State()).(searchTerm := term)
    {
      searchTerm := term;
    }

    method SetSelectedCategory(category: string)
      modifies this
      ensures State() == old(State()).(selectedCategory := category)
    {
      selectedCategory := category;
    }

    method SetSortBy(key: SortKey)
      modifies this
      ensures State() == old(State()).(sortBy := key)
    {
      sortBy := key;
    }

    method SetSortOrder(order: SortOrder)
      modifies this
      ensures State() == old(State()).(sortOrder := order)
    {
      sortOrder := order;
    }

    method ClearError()
      modifies this
      ensures State() == old(State()).(error := None)
    {
      error := None;
    }

    /** updateModInState: merge the patch into the first mod with its id; no other mod,
        and nothing else, changes. */
    method UpdateModInState(patch: ModPatch)
      modifies this
      ensures State() == old(State()).(mods := mods)
      ensures |mods| == |old(mods)|
      ensures match FirstWithKey(old(mods), ModId, patch.id)
        case None => mods == old(mods)
        case Some(i) => mods == old(mods)[i := Merge(old(mods)[i], patch)]
    {
      match FirstWithKey(mods, ModId, patch.id)
      case None =>
      case Some(i) =>
        mods := mods[i := Merge(mods[i], patch)];
    }

    /** The pending case of every thunk: loading, with the error cleared. */
    method Pending(thunk: ModsThunk)
      modifies this
      ensures State() == old(State()).(loading := true, error := None)
    {
      loading := true;
      error := None;
    }

    /** The rejected case of every thunk: the error message, or the thunk's fallback. */
    method Rejected(thunk: ModsThunk, message: Option<string>)
      modifies this
      ensures State() == old(State()).(loading := false, error := Some(MessageOr(message, DefaultError(thunk))))
    {
      loading := false;
      error := Some(MessageOr(message, DefaultError(thunk)));
    }

    /** scanMods.fulfilled: the scanned list replaces the old one. */
    method ScanFulfilled(scanned: seq<ModInfo>)
      modifies this
      ensures State() == old(State()).(loading := false, mods := scanned)
    {
      loading := false;
      mods := scanned;
    }

    /** enableMod.fulfilled: the first mod with the id is enabled and stamped as used at
        `now`, the time `new Date()` reads. */
    method EnableFulfilled(id: string, now: int)
      modifies this
      ensures State() == old(State()).(loading := false, mods := mods)
      ensures match FirstWithKey(old(mods), ModId, id)
        case None => mods == old(mods)
        case Some(i) => mods == old(mods)[i := old(mods)[i].(enabled := true, lastUsed := Some(now))]
    {
      loading := false;
      match FirstWithKey(mods, ModId, id)
      case None =>
      case Some(i) =>
        mods := mods[i := mods[i].(enabled := true, lastUsed := Some(now))];
    }

    /** disableMod.fulfilled: the first mod with the id is disabled; nothing else of it
        changes. */
    method DisableFulfilled(id: string)
      modifies this
      ensures State() == old(State()).(loading := false, mods := mods)
      ensures match FirstWithKey(old(mods), ModId, id)
        case None => mods == old(mods)
        case Some(i) => mods == old(mods)[i := old(mods)[i].(enabled := false)]
    {
      loading := false;
      match FirstWithKey(mods, ModId, id)
      case None =>
      case Some(i) =>
        mods := mods[i := mods[i].(enabled := false)];
    }

    /** selectFilteredMods: the mods that pass the search and category filters, each as
        often as in the list, sorted by the chosen key and order; the state is not touched. */
    method SelectFilteredMods() returns (r: seq<ModInfo>)
      ensures multiset(r) == multiset(Filtered(mods, searchTerm, selectedCategory))
      ensures forall m :: m in r <==> m in mods && Passes(m, searchTerm, selectedCategory)
      ensures forall i, j :: 0 <= i < j < |r| ==> InOrder(r[i], r[j], sortBy, sortOrder)
    {
      r := Select(mods, searchTerm, selectedCategory, sortBy, sortOrder);
    }
  }

  /** selectFilteredMods on the given state: filter into a fresh array, then sort it. */
  method Select(mods: seq<ModInfo>, term: string, category: string, key: SortKey, order: SortOrder)
    returns (r: seq<ModInfo>)
    ensures multiset(r) == multiset(Filtered(mods, term, category))
    ensures forall m :: m in r <==> m in mods && Passes(m, term, category)
    ensures forall i, j :: 0 <= i < j < |r| ==> InOrder(r[i], r[j], key, order)
  {
    var filtered := Filtered(mods, term, category);
    var a := new ModInfo[|filtered|](i requires 0 <= i < |filtered| => filtered[i]);
    assert a[..] == filtered;
    var le := (x: ModInfo, y: ModInfo) => InOrder(x, y, key, order);
    InOrderTotalPreorder(key, order);
    SortInPlace(a, le);
    r := a[..];
    forall m ensures m in r <==> m in filtered {
      assert m in r <==> m in multiset(r);
      assert m in filtered <==> m in multiset(filtered);
    }
  }
}
