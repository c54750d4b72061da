/** de4dot's MaxtoCode deobfuscator: its detection score, the guard on decrypting the module,
    the hand-over of decrypter state to the reloaded module, and the pruning of duplicate and
    invalid embedded resources. A module's resources are a sequence; a resource is named by its
    index there, and "marking it for removal" appends that index to a list. */
module MaxtoCode {
  import opened Wrappers
  import opened Bytes
  import opened Dictionary

  /** What the pruning rules read from a module resource: whether it is an EmbeddedResource,
      its (nullable) Offset, its data's FileOffset and Length, and its (nullable) name. */
  datatype Resource = Resource(isEmbedded: bool, offset: Option<int>, fileOffset: int, length: int, name: Option<string>)

  /** UTF8String.IsNullOrEmpty on a resource's name. */
  predicate Unnamed(r: Resource)
  {
    r.name.None? || |r.name.value| == 0
  }

  /** detectInternal: 150 when the main type was found, else 0. */
  function DetectScore(mainTypeDetected: bool): (r: int)
    ensures r == 150 <==> mainTypeDetected
    ensures r == 0 <==> !mainTypeDetected
  {
    var val := 0;
    if mainTypeDetected then 150 else val
  }

  /** The identity of a resource's data as ResourceKey.Equals sees it. */
  datatype ResourceKey = ResourceKey(fileOffset: int, length: int)

  function KeyOf(r: Resource): ResourceKey
  {
    ResourceKey(r.fileOffset, r.length)
  }

  /** ResourceKey.Equals: false against null (or a non-key), otherwise the same FileOffset and
      Length. */
  function KeyEquals(a: Resource, other: Option<Resource>): (r: bool)
    ensures r <==> other.Some? && a.fileOffset == other.value.fileOffset && a.length == other.value.length
    ensures r <==> other.Some? && KeyOf(a) == KeyOf(other.value)
  {
    if other.None? then false
    else a.fileOffset == other.value.fileOffset && a.length == other.value.length
  }

  /** Key equality is an equivalence on resources, so grouping by it is well defined. */
  lemma KeyEqualsEquivalence(a: Resource, b: Resource, c: Resource)
    ensures KeyEquals(a, Some(a))
    ensures KeyEquals(a, Some(b)) == KeyEquals(b, Some(a))
    ensures KeyEquals(a, Some(b)) && KeyEquals(b, Some(c)) ==> KeyEquals(a, Some(c))
  {
  }

  /** A resource the duplicate pass groups: embedded, with a non-null Offset. */
  predicate Candidate(rs: seq<Resource>, i: nat)
    requires i < |rs|
  {
    rs[i].isEmbedded && rs[i].offset.Some?
  }

  /** The indexes, in order, of the candidates among the first n resources whose key is `key`:
      the list the dictionary holds for that key. */
  function Members(rs: seq<Resource>, n: nat, key: ResourceKey): (r: seq<nat>)
    requires n <= |rs|
    ensures |r| <= n && InRange(n, r)
    decreases n
  {
    if n == 0 then []
    else if Candidate(rs, n - 1) && KeyOf(rs[n - 1]) == key then Members(rs, n - 1, key) + [n - 1]
    else Members(rs, n - 1, key)
  }

  /** Every index of the list is below n. */
  predicate InRange(n: nat, list: seq<nat>)
  {
    forall k :: 0 <= k < |list| ==> list[k] < n
  }

  /** A group holds exactly the candidates with its key, in increasing order. */
  lemma {:induction false} MembersSpec(rs: seq<Resource>, n: nat, key: ResourceKey)
    requires n <= |rs|
    ensures forall i :: i in Members(rs, n, key) <==> 0 <= i < n && Candidate(rs, i) && KeyOf(rs[i]) == key
    ensures forall a, b :: 0 <= a < b < |Members(rs, n, key)| ==> Members(rs, n, key)[a] < Members(rs, n, key)[b]
    decreases n
  {
    if n > 0 {
      MembersSpec(rs, n - 1, key);
    }
  }

  /** The resource a group keeps: its first member with a non-empty name. */
  function KeepOf(rs: seq<Resource>, group: seq<nat>): (r: Option<nat>)
    requires InRange(|rs|, group)
    ensures r.Some? ==> r.value in group && !Unnamed(rs[r.value])
    ensures r.None? <==> forall i :: i in group ==> Unnamed(rs[i])
  {
    if |group| == 0 then None
    else if !Unnamed(rs[group[0]]) then Some(group[0])
    else KeepOf(rs, group[1..])
  }

  /** The group of resource i's key over the whole module. */
  function GroupOf(rs: seq<Resource>, i: nat): seq<nat>
    requires i < |rs|
  {
    Members(rs, |rs|, KeyOf(rs[i]))
  }

  /** The duplicate pass removes resource i: i is grouped, its group keeps a named resource,
      and that resource is not i. */
  predicate Dropped(rs: seq<Resource>, i: nat)
    requires i < |rs|
  {
    Candidate(rs, i) && KeepOf(rs, GroupOf(rs, i)).Some? && KeepOf(rs, GroupOf(rs, i)).value != i
  }

  /** A dropped resource shares its data key with a named resource that stays. */
  lemma DroppedHasKeeper(rs: seq<Resource>, i: nat)
    requires i < |rs| && Dropped(rs, i)
    ensures var k := KeepOf(rs, GroupOf(rs, i)).value;
      k < |rs| && k != i && Candidate(rs, k) && KeyOf(rs[k]) == KeyOf(rs[i]) && !Unnamed(rs[k]) && !Dropped(rs, k)
  {
    var k := KeepOf(rs, GroupOf(rs, i)).value;
    MembersSpec(rs, |rs|, KeyOf(rs[i]));
    assert GroupOf(rs, k) == GroupOf(rs, i);
  }

  /** A resource that is alone with its key, or whose group has no named member, is kept. */
  lemma LoneOrUnnamedKept(rs: seq<Resource>, i: nat)
    requires i < |rs| && Candidate(rs, i)
    requires |GroupOf(rs, i)| <= 1 || forall j :: j in GroupOf(rs, i) ==> Unnamed(rs[j])
    ensures !Dropped(rs, i)
  {
    MembersSpec(rs, |rs|, KeyOf(rs[i]));
    assert i in GroupOf(rs, i);
    if |GroupOf(rs, i)| <= 1 && KeepOf(rs, GroupOf(rs, i)).Some? {
      assert GroupOf(rs, i) == [i];
    }
  }

  /** What the key-to-list dictionary holds after the first n resources. */
  ghost predicate Grouped(d: Dict<ResourceKey, seq<nat>>, rs: seq<Resource>, n: nat)
    requires n <= |rs|
  {
    DistinctKeys(d) && forall key :: Lookup(d, key) == GroupEntry(rs, n, key)
  }

  /** A key's entry: absent until a candidate with that key appears, then its group so far. */
  function GroupEntry(rs: seq<Resource>, n: nat, key: ResourceKey): Option<seq<nat>>
    requires n <= |rs|
  {
    if |Members(rs, n, key)| > 0 then Some(Members(rs, n, key)) else None
  }

  /** One pass of the grouping loop: non-embedded resources and those without an Offset are
      skipped; otherwise the key gets a list (new if absent) and the resource joins it. */
  method GroupResource(resources: Dict<ResourceKey, seq<nat>>, rs: seq<Resource>, t: nat) returns (d: Dict<ResourceKey, seq<nat>>)
    requires t < |rs| && Grouped(resources, rs, t)
    ensures Grouped(d, rs, t + 1)
  {
    d := resources;
    if !rs[t].isEmbedded || rs[t].offset.None? {
      forall key ensures Lookup(d, key) == GroupEntry(rs, t + 1, key) {
        assert Lookup(resources, key) == GroupEntry(rs, t, key);
      }
      return;
    }
    var key := KeyOf(rs[t]);
    var list := Lookup(d, key);
    if list.None? {
      PutDistinct(d, key, []);
      PutLookup(d, key, [], key);
      d := Put(d, key, []);
      list := Some([]);
    }
    assert list.value == Members(rs, t, key) by {
      assert Lookup(resources, key) == GroupEntry(rs, t, key);
    }
    var d1 := d;
    PutDistinct(d, key, list.value + [t]);
    d := Put(d, key, list.value + [t]);
    forall key' ensures Lookup(d, key') == GroupEntry(rs, t + 1, key') {
      assert Lookup(resources, key') == GroupEntry(rs, t, key');
      PutLookup(d1, key, list.value + [t], key');
      if key' != key {
        PutLookup(resources, key, [], key');
      }
    }
  }

  /** The other members of a group, in order: those the third loop marks. */
  function Others(group: seq<nat>, keep: nat): (r: seq<nat>)
    ensures forall i :: i in r <==> i in group && i != keep
  {
    if |group| == 0 then []
    else (if group[0] == keep then [] else [group[0]]) + Others(group[1..], keep)
  }

  /** The loop that finds the resource to keep: the first named member. */
  method FindResourceToKeep(rs: seq<Resource>, list: seq<nat>) returns (r: Option<nat>)
    requires InRange(|rs|, list)
    ensures r == KeepOf(rs, list)
  {
    var k := 0;
    while k < |list|
      invariant 0 <= k <= |list|
      invariant KeepOf(rs, list) == KeepOf(rs, list[k..])
    {
      assert list[k..][1..] == list[k + 1..];
      if !Unnamed(rs[list[k]]) {
        return Some(list[k]);
      }
      k := k + 1;
    }
    return None;
  }

  /** The loop that marks every member other than the kept one. */
  method MarkOthers(removed: seq<nat>, list: seq<nat>, keep: nat) returns (r: seq<nat>)
    ensures r == removed + Others(list, keep)
  {
    r := removed;
    var k := 0;
    while k < |list|
      invariant 0 <= k <= |list|
      invariant r + Others(list[k..], keep) == removed + Others(list, keep)
    {
      assert list[k..][1..] == list[k + 1..];
      if list[k] != keep {
        r := r + [list[k]];
      }
      k := k + 1;
    }
    assert list[k..] == [];
  }

  /** Whether a group key comes before position k of the dictionary. */
  ghost predicate KeyBefore(d: Dict<ResourceKey, seq<nat>>, k: nat, key: ResourceKey)
  {
    exists k' :: 0 <= k' < k && k' < |d| && d[k'].0 == key
  }

  /** removeDuplicateEmbeddedResources: exactly the dropped resources are marked. */
  method RemoveDuplicateEmbeddedResources(rs: seq<Resource>) returns (removed: seq<nat>)
    ensures forall i :: i in removed <==> 0 <= i < |rs| && Dropped(rs, i)
  {
    var resources: Dict<ResourceKey, seq<nat>> := [];
    var t := 0;
    while t < |rs|
      invariant 0 <= t <= |rs|
      invariant Grouped(resources, rs, t)
    {
      resources := GroupResource(resources, rs, t);
      t := t + 1;
    }
    removed := [];
    var k := 0;
    while k < |resources|
      invariant 0 <= k <= |resources|
      invariant forall i :: i in removed <==> 0 <= i < |rs| && Dropped(rs, i) && KeyBefore(resources, k, KeyOf(rs[i]))
    {
      var list := resources[k].1;
      EntryLookup(resources, k);
      assert Lookup(resources, resources[k].0) == GroupEntry(rs, |rs|, resources[k].0);
      MembersSpec(rs, |rs|, resources[k].0);
      var before := removed;
      if |list| > 1 {
        var resourceToKeep := FindResourceToKeep(rs, list);
        if resourceToKeep.Some? {
          removed := MarkOthers(removed, list, resourceToKeep.value);
        }
      }
      MarkStep(rs, resources, k, before, removed);
      k := k + 1;
    }
    forall i | 0 <= i < |rs| && Dropped(rs, i) ensures KeyBefore(resources, |resources|, KeyOf(rs[i])) {
      GroupedKeyPresent(resources, rs, i);
    }
  }

  /** Every candidate's key has an entry in the finished dictionary. */
  lemma GroupedKeyPresent(d: Dict<ResourceKey, seq<nat>>, rs: seq<Resource>, i: nat)
    requires Grouped(d, rs, |rs|) && i < |rs| && Candidate(rs, i)
    ensures KeyBefore(d, |d|, KeyOf(rs[i]))
  {
    var key := KeyOf(rs[i]);
    MembersSpec(rs, |rs|, key);
    assert i in Members(rs, |rs|, key);
    assert Lookup(d, key) == GroupEntry(rs, |rs|, key);
    LookupIn(d, key);
    var k' :| 0 <= k' < |d| && d[k'] == (key, Lookup(d, key).value);
  }

  /** One entry of the marking loop: the dropped members of entry k's group join the list. */
  lemma MarkStep(rs: seq<Resource>, d: Dict<ResourceKey, seq<nat>>, k: nat, before: seq<nat>, after: seq<nat>)
    requires k < |d|
    requires d[k].1 == Members(rs, |rs|, d[k].0)
    requires forall i :: i in before <==> 0 <= i < |rs| && Dropped(rs, i) && KeyBefore(d, k, KeyOf(rs[i]))
    requires var keep := KeepOf(rs, d[k].1);
      after == if |d[k].1| > 1 && keep.Some? then before + Others(d[k].1, keep.value) else before
    ensures forall i :: i in after <==> 0 <= i < |rs| && Dropped(rs, i) && KeyBefore(d, k + 1, KeyOf(rs[i]))
  {
    MembersSpec(rs, |rs|, d[k].0);
    forall i ensures i in after <==> 0 <= i < |rs| && Dropped(rs, i) && KeyBefore(d, k + 1, KeyOf(rs[i])) {
      if 0 <= i < |rs| {
        KeyBeforeStep(d, k, KeyOf(rs[i]));
        if KeyOf(rs[i]) == d[k].0 && Candidate(rs, i) {
          MarkedInGroup(rs, d[k].1, i);
        }
      }
    }
  }

  /** Reaching one more entry adds exactly that entry's key. */
  lemma KeyBeforeStep(d: Dict<ResourceKey, seq<nat>>, k: nat, key: ResourceKey)
    requires k < |d|
    ensures KeyBefore(d, k + 1, key) <==> KeyBefore(d, k, key) || d[k].0 == key
  {
    if KeyBefore(d, k + 1, key) && !KeyBefore(d, k, key) {
      var k' :| 0 <= k' < k + 1 && k' < |d| && d[k'].0 == key;
      assert k' == k;
    }
    if KeyBefore(d, k, key) {
      var k' :| 0 <= k' < k && k' < |d| && d[k'].0 == key;
      assert 0 <= k' < k + 1 && k' < |d| && d[k'].0 == key;
    }
  }

  /** Within a group, the loop marks a member exactly when the duplicate rule drops it: a group
      of one keeps its only member. */
  lemma MarkedInGroup(rs: seq<Resource>, group: seq<nat>, i: nat)
    requires i < |rs| && Candidate(rs, i) && group == GroupOf(rs, i)
    ensures var keep := KeepOf(rs, group);
      (|group| > 1 && keep.Some? && i in Others(group, keep.value)) <==> Dropped(rs, i)
  {
    MembersSpec(rs, |rs|, KeyOf(rs[i]));
    assert i in group;
    if |group| <= 1 && KeepOf(rs, group).Some? {
      assert group == [i];
    }
  }

  /** removeInvalidResources: an embedded resource is invalid when its Offset is null or its
      data has FileOffset 0 and Length 0. */
  predicate IsInvalid(r: Resource)
  {
    r.isEmbedded && (r.offset.None? || (r.fileOffset == 0 && r.length == 0))
  }

  /** removeInvalidResources marks exactly the invalid resources, in module order. */
  method RemoveInvalidResources(rs: seq<Resource>) returns (removed: seq<nat>)
    ensures forall i :: i in removed <==> 0 <= i < |rs| && IsInvalid(rs[i])
    ensures forall a, b :: 0 <= a < b < |removed| ==> removed[a] < removed[b]
  {
    removed := [];
    var t := 0;
    while t < |rs|
      invariant 0 <= t <= |rs|
      invariant forall i :: i in removed <==> 0 <= i < t && IsInvalid(rs[i])
      invariant forall a, b :: 0 <= a < b < |removed| ==> removed[a] < removed[b]
      invariant forall a :: 0 <= a < |removed| ==> removed[a] < t
    {
      var resource := rs[t];
      if resource.isEmbedded {
        if resource.offset.None? || (resource.fileOffset == 0 && resource.length == 0) {
          removed := removed + [t];
        }
      }
      t := t + 1;
    }
  }

  /** A resource with a null Offset is invalid but never grouped as a duplicate. */
  lemma NullOffsetOnlyInvalid(rs: seq<Resource>, i: nat)
    requires i < |rs| && rs[i].isEmbedded && rs[i].offset.None?
    ensures IsInvalid(rs[i]) && !Dropped(rs, i)
  {
  }

  /** The main type found in a module (MainType is not part of this model beyond this). */
  class MainType {
    const moduleId: nat
    const detected: bool

    constructor(moduleId: nat, detected: bool)
      ensures this.moduleId == moduleId && this.detected == detected
    {
      this.moduleId := moduleId;
      this.detected := detected;
    }
  }

  /** The decrypter state: the main type it belongs to and the module's file bytes. */
  class DecrypterInfo {
    var mainType: MainType
    const fileData: seq<byte>

    constructor(mainType: MainType, fileData: seq<byte>)
      ensures this.mainType == mainType && this.fileData == fileData
    {
      this.mainType := mainType;
      this.fileData := fileData;
    }
  }

  class MaxtoCodeDeobfuscator {
    var moduleId: nat
    var mainType: MainType
    var decrypterInfo: DecrypterInfo?

    constructor(moduleId: nat, mainType: MainType)
      ensures this.moduleId == moduleId && this.mainType == mainType && decrypterInfo == null
    {
      this.moduleId := moduleId;
      this.mainType := mainType;
      decrypterInfo := null;
    }

    function DetectInternal(): (r: int)
      reads this, mainType
      ensures r == DetectScore(mainType.detected)
    {
      DetectScore(mainType.detected)
    }

    /** getDecryptedModule: only the first pass (count 0) over a module whose main type was
        found decrypts; `fileData` is the module read from disk and `decrypts` whether the
        methods decrypter succeeds. On success the ref `newFileData` becomes the file data. */
    method GetDecryptedModule(count: int, newFileData: seq<byte>, fileData: seq<byte>, decrypts: bool)
      returns (r: bool, newFileData': seq<byte>)
      modifies this
      ensures r <==> count == 0 && mainType.detected && decrypts
      ensures !(count == 0 && mainType.detected) ==> decrypterInfo == old(decrypterInfo)
      ensures count == 0 && mainType.detected ==>
        fresh(decrypterInfo) && decrypterInfo.mainType == mainType && decrypterInfo.fileData == fileData
      ensures newFileData' == if r then fileData else newFileData
      ensures moduleId == old(moduleId) && mainType == old(mainType)
    {
      newFileData' := newFileData;
      if count != 0 || !mainType.detected {
        return false, newFileData';
      }
      decrypterInfo := new DecrypterInfo(mainType, fileData);
      if !decrypts {
        return false, newFileData';
      }
      newFileData' := fileData;
      r := true;
    }

    /** moduleReloaded: a new deobfuscator for the reloaded module takes over the decrypter
        state, which now points at the new main type; this one lets go of it. */
    method ModuleReloaded(newModule: nat) returns (newOne: MaxtoCodeDeobfuscator)
      modifies this, decrypterInfo
      ensures fresh(newOne) && fresh(newOne.mainType)
      ensures newOne.moduleId == newModule && newOne.mainType.moduleId == newModule
      ensures newOne.mainType.detected == old(mainType.detected)
      ensures newOne.decrypterInfo == old(decrypterInfo) && decrypterInfo == null
      ensures old(decrypterInfo) != null ==> old(decrypterInfo).mainType == newOne.mainType
      ensures moduleId == old(moduleId) && mainType == old(mainType)
    {
      var newMainType := new MainType(newModule, mainType.detected);
      newOne := new MaxtoCodeDeobfuscator(newModule, newMainType);
      newOne.decrypterInfo := decrypterInfo;
      decrypterInfo := null;
      if newOne.decrypterInfo != null {
        newOne.decrypterInfo.mainType := newOne.mainType;
      }
    }
  }
}
