/** The renderer's profiles slice (src/renderer/src/store/slices/profilesSlice.ts): the
    list of profiles and the active one, changed in place by plain reducers. */
module ProfilesSlice {
  import opened Wrappers
  import opened Types

  /** `filter(p => p.id !== id)`: the profiles with another id, in their order. */
  function WithoutId(profiles: seq<Profile>, id: string): (r: seq<Profile>)
    ensures forall p :: p in r <==> p in profiles && p.id != id
    ensures |r| <= |profiles|
    ensures (forall i :: 0 <= i < |profiles| ==> profiles[i].id != id) ==> r == profiles
  {
    if profiles == [] then []
    else if profiles[0].id == id then WithoutId(profiles[1..], id)
    else [profiles[0]] + WithoutId(profiles[1..], id)
  }

  /** Filtering keeps the relative order: the survivors of a concatenation are the
      survivors of each part, one after the other. */
  lemma {:induction false} WithoutIdAppend(a: seq<Profile>, b: seq<Profile>, id: string)
    ensures WithoutId(a + b, id) == WithoutId(a, id) + WithoutId(b, id)
  {
    if a == [] {
      assert a + b == b;
    } else {
      assert (a + b)[0] == a[0];
      assert (a + b)[1..] == a[1..] + b;
      WithoutIdAppend(a[1..], b, id);
    }
  }

  /** Removing an id twice removes no more than removing it once. */
  lemma {:induction false} WithoutIdIdempotent(profiles: seq<Profile>, id: string)
    ensures WithoutId(WithoutId(profiles, id), id) == WithoutId(profiles, id)
  {
    if profiles != [] {
      WithoutIdIdempotent(profiles[1..], id);
    }
  }

  /** The whole state of the slice, as one value. */
  datatype ProfilesState = ProfilesState(
    profiles: seq<Profile>,
    activeProfile: Option<Profile>,
    loading: bool,
    error: Option<string>)

  class ProfilesStore {
    var profiles: seq<Profile>
    var activeProfile: Option<Profile>
    var loading: bool
    var error: Option<string>

    function State(): ProfilesState
      reads this
    {
      ProfilesState(profiles, activeProfile, loading, error)
    }

    /** initialState: no profiles, none active, not loading, no error. */
    constructor()
      ensures State() == ProfilesState([], None, false, None)
    {
      profiles, activeProfile, loading, error := [], None, false, None;
    }

    method SetProfiles(ps: seq<Profile>)
      modifies this
      ensures State() == old(State()).(profiles := ps)
    {
      profiles := ps;
    }

    method SetActiveProfile(p: Option<Profile>)
      modifies this
      ensures State() == old(State()).(activeProfile := p)
    {
      activeProfile := p;
    }

    /** addProfile: `push` onto the end; the earlier profiles stay where they were. */
    method AddProfile(p: Profile)
      modifies this
      ensures State() == old(State()).(profiles := old(profiles) + [p])
      ensures |profiles| == |old(profiles)| + 1 && profiles[|profiles| - 1] == p
      ensures profiles[..|old(profiles)|] == old(profiles)
    {
      profiles := profiles + [p];
    }

    /** updateProfile: the first profile with the payload's id is replaced by it; without
        one nothing changes. The active profile is left as it was, even when it is the
        one replaced. */
    method UpdateProfile(p: Profile)
      modifies this
      ensures State() == old(State()).(profiles := profiles)
      ensures |profiles| == |old(profiles)|
      ensures match FirstWithKey(old(profiles), ProfileId, p.id)
        case None => profiles == old(profiles)
        case Some(i) => profiles == old(profiles)[i := p]
    {
      match FirstWithKey(profiles, ProfileId, p.id)
      case None =>
      case Some(i) =>
        profiles := profiles[i := p];
    }

    /** removeProfile: every profile with the id goes, the rest keep their order, and the
        active profile is cleared exactly when it has that id. */
    method RemoveProfile(id: string)
      modifies this
      ensures State() == old(State()).(profiles := WithoutId(old(profiles), id), activeProfile := activeProfile)
      ensures activeProfile == if old(activeProfile).Some? && old(activeProfile).value.id == id
        then None else old(activeProfile)
    {
      profiles := WithoutId(profiles, id);
      if activeProfile.Some? && activeProfile.value.id == id {
        activeProfile := None;
      }
    }

    method SetLoading(b: bool)
      modifies this
      ensures State() == old(State()).(loading := b)
    {
      loading := b;
    }

    method SetError(e: Option<string>)
      modifies this
      ensures State() == old(State()).(error := e)
    {
      error := e;
    }
  }
}
