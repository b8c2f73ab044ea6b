/** The MIME descriptor cache of src/vfs/vfs-mime-type.cxx: reference-counted
    descriptors held in a process-wide map, a reload that empties the map, a
    pending-reload id, the per-class icon caches, and the icon-name fallback
    chain.

    The heap is modelled by tags: every allocation (a descriptor or a copy of
    a type string) takes the next unused tag, so a string is a `CStr` carrying
    both its address and its text. The map is generic in its key: `Cache<nat>`
    is the map as written, keyed by the address of the descriptor's own copy
    of the type name, and `Cache<string>` is the map keyed by the text. */
module MimeCache {
  import opened Wrappers
  import opened Strings
  import FileMonitor

  /** A NUL-terminated string: where it lives and what it says. */
  datatype CStr = CStr(addr: nat, text: string)

  /** `VFSMimeType`: its own copy of the type name, its reference count, and
      the cached big and small icons (`None` is a null pixbuf). */
  datatype Desc = Desc(name: CStr, refs: nat, big: Option<string>, small: Option<string>)

  /** The file-level state: `mime_map`, the live descriptors by tag,
      the next unused tag, `reload_callback_id`, and the two icon sizes. */
  datatype Cache<K> = Cache(
    entries: map<K, nat>,
    descs: map<nat, Desc>,
    next: nat,
    reloadId: nat,
    bigSize: int,
    smallSize: int)

  /** The map before any lookup: empty, nothing pending, sizes 32 and 16. */
  function Init<K>(): (c: Cache<K>)
    ensures Heap(c) && c.entries == map[] && c.reloadId == 0
    ensures c.bigSize == 32 && c.smallSize == 16
  {
    Cache(map[], map[], 0, 0, 32, 16)
  }

  /** Every map value is a live descriptor, no descriptor sits under two keys,
      every tag in use is below `next`, and a live descriptor has a positive
      count (one at zero has been freed). */
  ghost predicate Heap<K>(c: Cache<K>)
  {
    && (forall k :: k in c.entries ==> c.entries[k] in c.descs)
    && (forall k1, k2 :: k1 in c.entries && k2 in c.entries && k1 != k2 ==>
          c.entries[k1] != c.entries[k2])
    && (forall id :: id in c.descs ==>
          id < c.next && c.descs[id].name.addr < c.next && c.descs[id].refs > 0)
  }

  /** The map as written: each key is the address of its descriptor's own
      copy of the type name. */
  ghost predicate KeyedByAddress(c: Cache<nat>)
  {
    Heap(c) && forall k :: k in c.entries ==> c.descs[c.entries[k]].name.addr == k
  }

  /** The map keyed by contents: each key is its descriptor's type text. */
  ghost predicate KeyedByText(c: Cache<string>)
  {
    Heap(c) && forall k :: k in c.entries ==> c.descs[c.entries[k]].name.text == k
  }

  /** A caller's string that is live (below `next`) and is none of the cache's
      own allocations: a MIME database buffer or a literal. */
  ghost predicate Foreign<K>(c: Cache<K>, t: CStr)
  {
    t.addr < c.next && forall id :: id in c.descs ==> id != t.addr && c.descs[id].name.addr != t.addr
  }

  /** `vfs_mime_type_new`: a fresh descriptor holding a fresh copy of the name
      (same text, new address) with count 1. The map is not touched. */
  function New<K>(c: Cache<K>, t: CStr): (r: (Cache<K>, nat))
    requires Heap(c)
    ensures Heap(r.0)
    ensures r.1 !in c.descs && r.1 in r.0.descs
    ensures r.0.descs == c.descs[r.1 := Desc(CStr(r.1 + 1, t.text), 1, None, None)]
    ensures r.0.entries == c.entries && r.0.next > r.1 + 1 && r.1 + 1 >= c.next
    ensures r.0.reloadId == c.reloadId && r.0.bigSize == c.bigSize && r.0.smallSize == c.smallSize
  {
    var id := c.next;
    (c.(descs := c.descs[id := Desc(CStr(id + 1, t.text), 1, None, None)], next := id + 2), id)
  }

  /** `vfs_mime_type_ref`. */
  function Ref<K>(c: Cache<K>, id: nat): (r: Cache<K>)
    requires id in c.descs
    ensures r.descs == c.descs[id := c.descs[id].(refs := c.descs[id].refs + 1)]
    ensures r.entries == c.entries && r.next == c.next && r.reloadId == c.reloadId
    ensures r.bigSize == c.bigSize && r.smallSize == c.smallSize
    ensures Heap(c) ==> Heap(r)
  {
    c.(descs := c.descs[id := c.descs[id].(refs := c.descs[id].refs + 1)])
  }

  /** `vfs_mime_type_unref`: decrement, and free the descriptor (its name and
      icons with it) when the count reaches zero. */
  function Unref<K>(c: Cache<K>, id: nat): (r: Cache<K>)
    requires id in c.descs
    ensures c.descs[id].refs <= 1 ==> r.descs == c.descs - {id}
    ensures c.descs[id].refs > 1 ==>
      r.descs == c.descs[id := c.descs[id].(refs := c.descs[id].refs - 1)]
    ensures r.entries == c.entries && r.next == c.next && r.reloadId == c.reloadId
    ensures r.bigSize == c.bigSize && r.smallSize == c.smallSize
  {
    var d := c.descs[id];
    if d.refs <= 1 then c.(descs := c.descs - {id})
    else c.(descs := c.descs[id := d.(refs := d.refs - 1)])
  }

  /** A reference taken and released leaves the cache exactly as it was. */
  lemma RefUnref<K>(c: Cache<K>, id: nat)
    requires Heap(c) && id in c.descs
    ensures Unref(Ref(c, id), id) == c
  {
    assert Ref(c, id).descs[id].refs > 1;
    assert Unref(Ref(c, id), id).descs == c.descs;
  }

  /** A descriptor the cache does not hold, released by its last holder, is
      freed; one with other holders stays live. */
  lemma UnrefFreesOnlyAtZero<K>(c: Cache<K>, id: nat)
    requires Heap(c) && id in c.descs
    requires id !in c.entries.Values || c.descs[id].refs > 1
    ensures Heap(Unref(c, id))
    ensures id in Unref(c, id).descs <==> c.descs[id].refs > 1
  {
  }

  /** `vfs_mime_type_get_from_type` as written: the map is searched for the
      caller's address, and a new descriptor is inserted under the address of
      its own copy of the name. Either way the caller receives one more
      reference. */
  function GetFromTypeAsWritten(c: Cache<nat>, t: CStr): (r: (Cache<nat>, nat))
    requires KeyedByAddress(c)
    ensures KeyedByAddress(r.0)
    ensures r.1 in r.0.descs
    ensures t.addr in c.entries ==> r.1 == c.entries[t.addr] && r.0 == Ref(c, r.1)
    ensures t.addr !in c.entries ==>
      && r.1 !in c.descs && r.0.descs[r.1].refs == 2 && r.0.descs[r.1].name.text == t.text
      && r.0.entries == c.entries[r.0.descs[r.1].name.addr := r.1]
    ensures r.0.next >= c.next && r.0.reloadId == c.reloadId
  {
    if t.addr in c.entries then
      var id := c.entries[t.addr];
      (Ref(c, id), id)
    else
      var (c1, id) := New(c, t);
      var c2 := c1.(entries := c1.entries[c1.descs[id].name.addr := id]);
      (Ref(c2, id), id)
  }

  /** A caller's own buffer is never a key, so every lookup through it misses
      and creates a descriptor, whatever the map already holds for that text. */
  lemma CallerBufferAlwaysMisses(c: Cache<nat>, t: CStr)
    requires KeyedByAddress(c) && Foreign(c, t)
    ensures GetFromTypeAsWritten(c, t).1 !in c.descs
    ensures Foreign(GetFromTypeAsWritten(c, t).0, t)
  {
    assert t.addr !in c.entries;
  }

  /** Looking the same type up twice through the same buffer, as
      `vfs_mime_type_get_from_file` does for two files of one type, yields two
      different descriptors for one text, and the map keeps both. */
  lemma RepeatedLookupDuplicates(c: Cache<nat>, t: CStr)
    requires KeyedByAddress(c) && Foreign(c, t)
    ensures var (c1, id1) := GetFromTypeAsWritten(c, t);
      var (c2, id2) := GetFromTypeAsWritten(c1, t);
      && id1 != id2
      && c2.descs[id1].name.text == t.text && c2.descs[id2].name.text == t.text
      && id1 in c2.entries.Values && id2 in c2.entries.Values
  {
    CallerBufferAlwaysMisses(c, t);
    var (c1, id1) := GetFromTypeAsWritten(c, t);
    CallerBufferAlwaysMisses(c1, t);
    var (c2, id2) := GetFromTypeAsWritten(c1, t);
    assert c1.entries[c1.descs[id1].name.addr] == id1;
    assert c2.entries[c2.descs[id2].name.addr] == id2;
    assert c2.entries[c1.descs[id1].name.addr] == id1;
  }

  /** `vfs_mime_type_get_from_type` keyed by the type's text: a hit returns the
      cached descriptor with one more reference; a miss inserts a descriptor
      with count 2, one reference for the map and one for the caller. */
  function GetFromType(c: Cache<string>, t: CStr): (r: (Cache<string>, nat))
    requires KeyedByText(c)
    ensures KeyedByText(r.0)
    ensures r.1 in r.0.descs && r.0.descs[r.1].name.text == t.text
    ensures t.text in r.0.entries && r.0.entries[t.text] == r.1
    ensures t.text in c.entries ==> r.1 == c.entries[t.text] && r.0 == Ref(c, r.1)
    ensures t.text !in c.entries ==>
      && r.1 !in c.descs && r.0.descs[r.1].refs == 2
      && r.0.entries == c.entries[t.text := r.1]
    ensures r.0.next >= c.next && r.0.reloadId == c.reloadId
  {
    if t.text in c.entries then
      var id := c.entries[t.text];
      (Ref(c, id), id)
    else
      var (c1, id) := New(c, t);
      var c2 := c1.(entries := c1.entries[t.text := id]);
      (Ref(c2, id), id)
  }

  /** With text keys, a second lookup of a type, from any buffer, returns the
      first lookup's descriptor and only adds a reference. */
  lemma RepeatedLookupShares(c: Cache<string>, t: CStr, u: CStr)
    requires KeyedByText(c) && u.text == t.text
    ensures var (c1, id1) := GetFromType(c, t);
      var (c2, id2) := GetFromType(c1, u);
      && id2 == id1 && c2.entries == c1.entries
      && c2.descs[id2].refs == c1.descs[id1].refs + 1
  {
  }

  /** The descriptors the map holds a reference to. */
  function Held<K>(c: Cache<K>): set<nat>
  {
    c.entries.Values
  }

  /** `vfs_mime_type_reload`: release the map's reference to every entry, empty
      the map, and clear the pending id. The database regeneration is outside
      the model. */
  function Reload<K>(c: Cache<K>): (r: Cache<K>)
    requires Heap(c)
    ensures Heap(r) && r.entries == map[] && r.reloadId == 0
    ensures forall id :: id in c.descs && id !in Held(c) ==> id in r.descs && r.descs[id] == c.descs[id]
    ensures forall id :: id in c.descs && id in Held(c) ==>
      (id in r.descs <==> c.descs[id].refs > 1)
    ensures forall id :: id in r.descs ==> id in c.descs
    ensures forall id :: id in r.descs && id in Held(c) ==>
      r.descs[id] == c.descs[id].(refs := c.descs[id].refs - 1)
    ensures r.next == c.next && r.bigSize == c.bigSize && r.smallSize == c.smallSize
  {
    var held := Held(c);
    var live := map id | id in c.descs && (id !in held || c.descs[id].refs > 1) ::
      if id in held then c.descs[id].(refs := c.descs[id].refs - 1) else c.descs[id];
    c.(entries := map[], descs := live, reloadId := 0)
  }

  /** After a reload every type misses: the next lookup builds a new
      descriptor, even for a type whose old descriptor a caller still holds. */
  lemma LookupAfterReloadMisses(c: Cache<string>, t: CStr)
    requires KeyedByText(c)
    ensures var r := Reload(c);
      KeyedByText(r) && GetFromType(r, t).1 !in c.descs && GetFromType(r, t).0.entries == map[t.text := GetFromType(r, t).1]
  {
  }

  /** `on_mime_cache_changed`: a create, delete or change of a cache file
      schedules a reload (an idle source with the positive id `sourceId`)
      unless one is already pending. */
  function OnMimeCacheChanged<K>(c: Cache<K>, e: FileMonitor.Event, sourceId: nat): (r: Cache<K>)
    requires sourceId > 0
    ensures e == FileMonitor.Other || c.reloadId != 0 ==> r == c
    ensures e != FileMonitor.Other ==> r.reloadId != 0
    ensures r == c.(reloadId := r.reloadId)
  {
    if e != FileMonitor.Other && c.reloadId == 0 then c.(reloadId := sourceId) else c
  }

  /** Scheduling is idempotent: a second event while a reload is pending keeps
      the first reload's id, and the reload clears it so that the next event
      schedules again. */
  lemma ScheduleOnce<K>(c: Cache<K>, e1: FileMonitor.Event, e2: FileMonitor.Event, id1: nat, id2: nat)
    requires Heap(c) && c.reloadId == 0 && id1 > 0 && id2 > 0
    requires e1 != FileMonitor.Other
    ensures OnMimeCacheChanged(OnMimeCacheChanged(c, e1, id1), e2, id2).reloadId == id1
    ensures e2 != FileMonitor.Other ==>
      OnMimeCacheChanged(Reload(OnMimeCacheChanged(c, e1, id1)), e2, id2).reloadId == id2
  {
  }

  /** `vfs_mime_type_set_icon_size_big`: on a real change, record the size and
      drop the big icon of every descriptor the map holds. */
  function SetIconSizeBig<K>(c: Cache<K>, size: int): (r: Cache<K>)
    ensures size == c.bigSize ==> r == c
    ensures r.bigSize == size && r.smallSize == c.smallSize
    ensures r.entries == c.entries && r.next == c.next && r.reloadId == c.reloadId
    ensures r.descs.Keys == c.descs.Keys
    ensures forall id :: id in c.descs ==> r.descs[id].small == c.descs[id].small
    ensures forall id :: id in c.descs ==>
      r.descs[id] == if size != c.bigSize && id in Held(c) then c.descs[id].(big := None) else c.descs[id]
  {
    if size == c.bigSize then c
    else
      var held := Held(c);
      c.(bigSize := size,
         descs := map id | id in c.descs :: if id in held then c.descs[id].(big := None) else c.descs[id])
  }

  /** `vfs_mime_type_set_icon_size_small`: the same for the small class. */
  function SetIconSizeSmall<K>(c: Cache<K>, size: int): (r: Cache<K>)
    ensures size == c.smallSize ==> r == c
    ensures r.smallSize == size && r.bigSize == c.bigSize
    ensures r.entries == c.entries && r.next == c.next && r.reloadId == c.reloadId
    ensures r.descs.Keys == c.descs.Keys
    ensures forall id :: id in c.descs ==> r.descs[id].big == c.descs[id].big
    ensures forall id :: id in c.descs ==>
      r.descs[id] == if size != c.smallSize && id in Held(c) then c.descs[id].(small := None) else c.descs[id]
  {
    if size == c.smallSize then c
    else
      var held := Held(c);
      c.(smallSize := size,
         descs := map id | id in c.descs :: if id in held then c.descs[id].(small := None) else c.descs[id])
  }

  /** Setting a size twice is setting it once, and a descriptor no longer in
      the map (a caller's after a reload) keeps its stale icon. */
  lemma SetIconSizeIdempotent<K>(c: Cache<K>, size: int, id: nat)
    ensures SetIconSizeBig(SetIconSizeBig(c, size), size) == SetIconSizeBig(c, size)
    ensures SetIconSizeSmall(SetIconSizeSmall(c, size), size) == SetIconSizeSmall(c, size)
    ensures id in c.descs && id !in Held(c) ==>
      SetIconSizeBig(c, size).descs[id] == c.descs[id] && SetIconSizeSmall(c, size).descs[id] == c.descs[id]
  {
  }

  // ---------------------------------------------------------------------
  // Icon names

  /** `XDG_MIME_TYPE_DIRECTORY` and `XDG_MIME_TYPE_UNKNOWN` of the xdgmime
      library. */
  const DirectoryType: string := "inode/directory"
  const UnknownType: string := "application/octet-stream"

  /** The guesses for a type `a/b` (split at the first slash): `a-b`,
      `gnome-mime-a-b`, `gnome-mime-a`, `a-x-generic`; none without a slash. */
  function Guesses(t: string): (r: seq<string>)
    ensures '/' !in t ==> r == []
    ensures '/' in t ==> |r| == 4
  {
    var sep := IndexOf(t, '/');
    if sep == |t| then []
    else
      var a := t[..sep];
      var b := t[sep + 1..];
      [a + "-" + b, "gnome-mime-" + a + "-" + b, "gnome-mime-" + a, a + "-x-generic"]
  }

  /** The names `get_icon` tries for a descriptor that has no cached icon, in
      order: the directory names for the directory type; otherwise the XML
      icon (when non-empty), the guesses, and then the unknown type's names,
      which end with `unknown`. `xmlIcon` is the freedesktop XML lookup. */
  function Candidates(t: string, xmlIcon: string -> string): (r: seq<string>)
    ensures |r| > 0
    decreases if t == UnknownType then 0 else 1
  {
    if t == DirectoryType then DirectoryNames
    else if t == UnknownType then OwnNames(t, xmlIcon) + ["unknown"]
    else OwnNames(t, xmlIcon) + Candidates(UnknownType, xmlIcon)
  }

  /** The folder icon names the directory type tries. */
  const DirectoryNames: seq<string> := ["gtk-directory", "gnome-fs-directory", "folder"]

  /** A type's own names: the XML icon when non-empty, then the guesses. */
  function OwnNames(t: string, xmlIcon: string -> string): seq<string>
  {
    (if xmlIcon(t) != "" then [xmlIcon(t)] else []) + Guesses(t)
  }

  /** `names[i]` is accepted and no earlier name is. */
  predicate FirstAccepted(names: seq<string>, canLoad: string -> bool, i: nat)
    requires i < |names|
  {
    canLoad(names[i]) && forall j :: 0 <= j < i ==> !canLoad(names[j])
  }

  /** The first name `canLoad` accepts (`vfs_load_icon` succeeding). */
  function FirstLoadable(names: seq<string>, canLoad: string -> bool): (r: Option<string>)
    ensures r.None? <==> forall i :: 0 <= i < |names| ==> !canLoad(names[i])
    ensures r.Some? ==> exists i :: 0 <= i < |names| && names[i] == r.value && FirstAccepted(names, canLoad, i)
  {
    if |names| == 0 then None
    else if canLoad(names[0]) then Some(names[0])
    else
      var rest := FirstLoadable(names[1..], canLoad);
      assert forall j :: 1 <= j < |names| ==> names[j] == names[1..][j - 1];
      rest
  }

  /** The directory type tries exactly the three folder names, and never falls
      back to the unknown type. */
  lemma DirectoryCandidates(xmlIcon: string -> string)
    ensures Candidates(DirectoryType, xmlIcon) == ["gtk-directory", "gnome-fs-directory", "folder"]
  {
  }

  /** For `a/b` with no XML icon the order is `a-b`, `gnome-mime-a-b`,
      `gnome-mime-a`, `a-x-generic`, then the unknown type's names. */
  lemma SlashTypeCandidates(a: string, b: string, xmlIcon: string -> string)
    requires '/' !in a && xmlIcon(a + "/" + b) == ""
    requires a + "/" + b != DirectoryType && a + "/" + b != UnknownType
    ensures Candidates(a + "/" + b, xmlIcon) ==
      [a + "-" + b, "gnome-mime-" + a + "-" + b, "gnome-mime-" + a, a + "-x-generic"]
        + Candidates(UnknownType, xmlIcon)
  {
    var t := a + "/" + b;
    CandidatesOfOther(t, xmlIcon);
    GuessesOfSlash(a, b);
    assert OwnNames(t, xmlIcon) == Guesses(t);
  }

  /** A type other than the directory and unknown types tries its own names,
      then the unknown type's list. */
  lemma CandidatesOfOther(t: string, xmlIcon: string -> string)
    requires t != DirectoryType && t != UnknownType
    ensures Candidates(t, xmlIcon) == OwnNames(t, xmlIcon) + Candidates(UnknownType, xmlIcon)
  {
  }

  /** The unknown type tries its own names, then `unknown`. */
  lemma CandidatesOfUnknown(xmlIcon: string -> string)
    ensures Candidates(UnknownType, xmlIcon) == OwnNames(UnknownType, xmlIcon) + ["unknown"]
  {
  }

  /** The guesses of `a/b` split at the slash after `a`. */
  lemma GuessesOfSlash(a: string, b: string)
    requires '/' !in a
    ensures Guesses(a + "/" + b) ==
      [a + "-" + b, "gnome-mime-" + a + "-" + b, "gnome-mime-" + a, a + "-x-generic"]
  {
    var t := a + "/" + b;
    assert IndexOf(t, '/') == |a| by {
      assert t[|a|] == '/';
      assert forall j :: 0 <= j < |a| ==> t[j] == a[j];
    }
    assert t[..|a|] == a;
    assert t[|a| + 1..] == b;
  }

  /** The unknown type ends its own list with `unknown` and every other
      non-directory type ends with the unknown type's list, so `unknown` is
      always the last name tried outside the directory type. */
  lemma UnknownIsLast(t: string, xmlIcon: string -> string)
    requires t != DirectoryType
    ensures var r := Candidates(t, xmlIcon); r[|r| - 1] == "unknown"
    ensures t != UnknownType ==>
      var r := Candidates(t, xmlIcon);
      var u := Candidates(UnknownType, xmlIcon);
      r[|r| - |u|..] == u
  {
    CandidatesOfUnknown(xmlIcon);
    if t != UnknownType {
      CandidatesOfOther(t, xmlIcon);
    }
  }

  /** The cached icon of one class of a descriptor. */
  function Slot(d: Desc, big: bool): Option<string>
  {
    if big then d.big else d.small
  }

  /** A descriptor with the cached icon of one class replaced. */
  function WithSlot(d: Desc, big: bool, icon: Option<string>): (r: Desc)
    ensures Slot(r, big) == icon && Slot(r, !big) == Slot(d, !big)
    ensures r.name == d.name && r.refs == d.refs
    ensures icon == Slot(d, big) ==> r == d
  {
    if big then d.(big := icon) else d.(small := icon)
  }

  /** Store an icon in one class of a live descriptor. */
  function Store(c: Cache<string>, id: nat, big: bool, icon: Option<string>): (r: Cache<string>)
    requires id in c.descs
    ensures KeyedByText(c) ==> KeyedByText(r)
    ensures r.entries == c.entries && r.next == c.next && r.descs.Keys == c.descs.Keys
    ensures r.descs[id] == WithSlot(c.descs[id], big, icon)
    ensures forall o :: o in c.descs && o != id ==> r.descs[o] == c.descs[o]
    ensures icon == Slot(c.descs[id], big) ==> r == c
  {
    c.(descs := c.descs[id := WithSlot(c.descs[id], big, icon)])
  }

  /** A release of a descriptor that has other holders keeps the map
      consistent and only lowers that count. */
  lemma UnrefShared(c: Cache<string>, u: nat)
    requires KeyedByText(c) && u in c.descs && c.descs[u].refs > 1
    ensures KeyedByText(Unref(c, u))
    ensures Unref(c, u).descs == c.descs[u := c.descs[u].(refs := c.descs[u].refs - 1)]
  {
  }

  /** The literal `XDG_MIME_TYPE_UNKNOWN`. Its address plays no part in a
      lookup keyed by text. */
  const UnknownLiteral: CStr := CStr(0, UnknownType)

  /** What `get_icon` settles from the descriptor alone: its cached icon of
      the class; the folder names for the directory type; the type's own
      names; and `unknown` for the unknown type. `None` means the call falls
      back to the unknown type's icon. */
  function LocalIcon(d: Desc, big: bool, xmlIcon: string -> string, canLoad: string -> bool): (r: Option<Option<string>>)
    ensures r.None? <==>
      && Slot(d, big).None? && d.name.text != DirectoryType && d.name.text != UnknownType
      && FirstLoadable(OwnNames(d.name.text, xmlIcon), canLoad).None?
    ensures Slot(d, big).Some? ==> r == Some(Slot(d, big))
  {
    var t := d.name.text;
    if Slot(d, big).Some? then Some(Slot(d, big))
    else if t == DirectoryType then Some(FirstLoadable(DirectoryNames, canLoad))
    else
      var own := FirstLoadable(OwnNames(t, xmlIcon), canLoad);
      if own.Some? then Some(own)
      else if t == UnknownType then Some(FirstLoadable(["unknown"], canLoad))
      else None
  }

  /** The call takes the fallback through the unknown type. */
  predicate Fallback(c: Cache<string>, id: nat, big: bool, xmlIcon: string -> string, canLoad: string -> bool)
    requires id in c.descs
  {
    LocalIcon(c.descs[id], big, xmlIcon, canLoad).None?
  }

  /** `vfs_mime_type_get_icon`: what the descriptor settles by itself is
      stored in the requested class and returned. Otherwise the unknown type
      is looked up, asked for its icon of the same class, released, and its
      icon is stored and returned. */
  function GetIcon(c: Cache<string>, id: nat, big: bool, xmlIcon: string -> string, canLoad: string -> bool)
    : (r: (Cache<string>, Option<string>))
    requires KeyedByText(c) && id in c.descs
    ensures KeyedByText(r.0) && r.0.next >= c.next
    ensures r.0.reloadId == c.reloadId && r.0.bigSize == c.bigSize && r.0.smallSize == c.smallSize
    ensures id in r.0.descs && r.0.descs[id] == WithSlot(c.descs[id], big, r.1)
    ensures Slot(c.descs[id], big).Some? ==> r == (c, Slot(c.descs[id], big))
    ensures !Fallback(c, id, big, xmlIcon, canLoad) ==> r.0 == Store(c, id, big, r.1)
  {
    var local := LocalIcon(c.descs[id], big, xmlIcon, canLoad);
    if local.Some? then (Store(c, id, big, local.value), local.value)
    else FallbackIcon(c, id, big, UnknownLiteral, xmlIcon, canLoad)
  }

  /** The icon the recursive `get_icon` gives for a descriptor of the
      unknown type, which it settles by itself: the cached icon, else its own
      names, else `unknown`. */
  function SelfIcon(d: Desc, big: bool, xmlIcon: string -> string, canLoad: string -> bool): Option<string>
  {
    if Slot(d, big).Some? then Slot(d, big)
    else
      var own := FirstLoadable(OwnNames(d.name.text, xmlIcon), canLoad);
      if own.Some? then own else FirstLoadable(["unknown"], canLoad)
  }

  /** For the unknown type, `SelfIcon` is what `get_icon` settles, and with
      nothing cached it is the first loadable name of its candidate list. */
  lemma SelfIconOfUnknown(d: Desc, big: bool, xmlIcon: string -> string, canLoad: string -> bool)
    requires d.name.text == UnknownType
    ensures LocalIcon(d, big, xmlIcon, canLoad) == Some(SelfIcon(d, big, xmlIcon, canLoad))
    ensures Slot(d, big).None? ==>
      SelfIcon(d, big, xmlIcon, canLoad) == FirstLoadable(Candidates(UnknownType, xmlIcon), canLoad)
  {
    FirstLoadableAppend(OwnNames(UnknownType, xmlIcon), ["unknown"], canLoad);
  }

  /** The fallback branch of `get_icon`, through the type `t` (the unknown
      type): look it up, let it settle its icon of the class (stored in its
      descriptor), release it, and store that icon in the requested class. */
  function FallbackIcon(c: Cache<string>, id: nat, big: bool, t: CStr, xmlIcon: string -> string, canLoad: string -> bool)
    : (r: (Cache<string>, Option<string>))
    requires KeyedByText(c) && id in c.descs && c.descs[id].name.text != t.text
    ensures KeyedByText(r.0) && r.0.next >= c.next
    ensures r.0.reloadId == c.reloadId && r.0.bigSize == c.bigSize && r.0.smallSize == c.smallSize
    ensures id in r.0.descs && r.0.descs[id] == WithSlot(c.descs[id], big, r.1)
  {
    var (c1, u) := GetFromType(c, t);
    var icon := SelfIcon(c1.descs[u], big, xmlIcon, canLoad);
    var c2 := Store(c1, u, big, icon);
    UnrefShared(c2, u);
    var c3 := Unref(c2, u);
    assert u != id;
    (Store(c3, id, big, icon), icon)
  }

  /** The fallback with `t` already mapped: its descriptor settles the icon,
      gets it in the requested class and keeps its count; nothing else but
      the requested slot changes. */
  lemma FallbackHit(c: Cache<string>, id: nat, big: bool, t: CStr, xmlIcon: string -> string, canLoad: string -> bool)
    requires KeyedByText(c) && id in c.descs && c.descs[id].name.text != t.text
    requires t.text in c.entries
    ensures var r := FallbackIcon(c, id, big, t, xmlIcon, canLoad);
      var u := c.entries[t.text];
      && u != id && r.1 == SelfIcon(c.descs[u], big, xmlIcon, canLoad)
      && r.0 == c.(descs := c.descs[u := WithSlot(c.descs[u], big, r.1)][id := WithSlot(c.descs[id], big, r.1)])
  {
    var u := c.entries[t.text];
    var c1 := GetFromType(c, t).0;
    assert GetFromType(c, t).1 == u && c1 == Ref(c, u);
    var icon := SelfIcon(c1.descs[u], big, xmlIcon, canLoad);
    assert icon == SelfIcon(c.descs[u], big, xmlIcon, canLoad);
    var c2 := Store(c1, u, big, icon);
    UnrefShared(c2, u);
    assert Unref(c2, u) == c.(descs := c.descs[u := WithSlot(c.descs[u], big, icon)]);
  }

  /** The fallback with `t` not yet mapped: a new descriptor of `t`, holding
      the icon, is entered in the map, which alone holds it. */
  lemma FallbackMiss(c: Cache<string>, id: nat, big: bool, t: CStr, xmlIcon: string -> string, canLoad: string -> bool)
    requires KeyedByText(c) && id in c.descs && c.descs[id].name.text != t.text
    requires t.text !in c.entries
    ensures var r := FallbackIcon(c, id, big, t, xmlIcon, canLoad);
      var u := GetFromType(c, t).1;
      && u !in c.descs && u in r.0.descs && r.0.entries == c.entries[t.text := u]
      && r.0.descs[u].name.text == t.text && r.0.descs[u].refs == 1 && Slot(r.0.descs[u], big) == r.1
      && r.0.descs == c.descs[u := r.0.descs[u]][id := WithSlot(c.descs[id], big, r.1)]
  {
    var (c1, u) := GetFromType(c, t);
    var nd := Desc(CStr(u + 1, t.text), 2, None, None);
    assert c1.descs == c.descs[u := nd] && c1.entries == c.entries[t.text := u];
    var icon := SelfIcon(nd, big, xmlIcon, canLoad);
    var c2 := Store(c1, u, big, icon);
    assert c2.descs == c.descs[u := WithSlot(nd, big, icon)];
    UnrefShared(c2, u);
    var c3 := Unref(c2, u);
    var nu := WithSlot(nd, big, icon).(refs := 1);
    assert c3.descs == c.descs[u := nu] && c3.entries == c1.entries;
    assert u != id && c3.descs[id] == c.descs[id];
  }

  /** After a fallback through `t`, `t` is mapped and its descriptor records
      the returned icon in the requested class. An icon not found means none
      of `t`'s own names and not `unknown` loads. */
  lemma FallbackRecords(c: Cache<string>, id: nat, big: bool, t: CStr, xmlIcon: string -> string, canLoad: string -> bool)
    requires KeyedByText(c) && id in c.descs && c.descs[id].name.text != t.text
    ensures var r := FallbackIcon(c, id, big, t, xmlIcon, canLoad);
      && t.text in r.0.entries && r.0.entries[t.text] in r.0.descs && r.0.entries[t.text] != id
      && Slot(r.0.descs[r.0.entries[t.text]], big) == r.1
      && r.0.descs[r.0.entries[t.text]].name.text == t.text
    ensures var r := FallbackIcon(c, id, big, t, xmlIcon, canLoad);
      r.1.None? ==> FirstLoadable(OwnNames(t.text, xmlIcon), canLoad).None? && FirstLoadable(["unknown"], canLoad).None?
  {
    if t.text in c.entries {
      FallbackHit(c, id, big, t, xmlIcon, canLoad);
      assert c.descs[c.entries[t.text]].name.text == t.text;
    } else {
      FallbackMiss(c, id, big, t, xmlIcon, canLoad);
    }
  }

  /** A fallback through `t` adds at most `t` to the map, and a descriptor
      it creates is `t`'s, held by the map alone. */
  lemma FallbackEntries(c: Cache<string>, id: nat, big: bool, t: CStr, xmlIcon: string -> string, canLoad: string -> bool)
    requires KeyedByText(c) && id in c.descs && c.descs[id].name.text != t.text
    ensures var r := FallbackIcon(c, id, big, t, xmlIcon, canLoad).0;
      && (forall k :: k in c.entries ==> k in r.entries && r.entries[k] == c.entries[k])
      && (forall k :: k in r.entries && k !in c.entries ==> k == t.text)
      && (forall o :: o in r.descs && o !in c.descs ==>
            r.descs[o].name.text == t.text && r.descs[o].refs == 1 && r.entries[t.text] == o)
  {
    if t.text !in c.entries {
      FallbackEntriesMiss(c, id, big, t, xmlIcon, canLoad);
    } else {
      FallbackHit(c, id, big, t, xmlIcon, canLoad);
    }
  }

  /** `FallbackEntries` when `t` is not yet mapped. */
  lemma FallbackEntriesMiss(c: Cache<string>, id: nat, big: bool, t: CStr, xmlIcon: string -> string, canLoad: string -> bool)
    requires KeyedByText(c) && id in c.descs && c.descs[id].name.text != t.text
    requires t.text !in c.entries
    ensures var r := FallbackIcon(c, id, big, t, xmlIcon, canLoad).0;
      && (forall k :: k in r.entries && k !in c.entries ==> k == t.text)
      && (forall o :: o in r.descs && o !in c.descs ==>
            r.descs[o].name.text == t.text && r.descs[o].refs == 1 && r.entries[t.text] == o)
  {
    FallbackMiss(c, id, big, t, xmlIcon, canLoad);
    var r := FallbackIcon(c, id, big, t, xmlIcon, canLoad).0;
    var u := GetFromType(c, t).1;
    assert forall o :: o in r.descs && o !in c.descs ==> o == u;
  }

  /** Besides the requested slot, a fallback through `t` changes only `t`'s
      descriptor, and only in the requested class. */
  lemma FallbackOthers(c: Cache<string>, id: nat, big: bool, t: CStr, xmlIcon: string -> string, canLoad: string -> bool)
    requires KeyedByText(c) && id in c.descs && c.descs[id].name.text != t.text
    ensures var r := FallbackIcon(c, id, big, t, xmlIcon, canLoad).0;
      && (forall o :: o in c.descs && o != id ==>
            o in r.descs && r.descs[o] == WithSlot(c.descs[o], big, Slot(r.descs[o], big)))
      && (forall o :: o in c.descs && o != id && r.descs[o] != c.descs[o] ==>
            t.text in c.entries && o == c.entries[t.text])
  {
    if t.text in c.entries {
      FallbackOthersHit(c, id, big, t, xmlIcon, canLoad);
    } else {
      FallbackOthersMiss(c, id, big, t, xmlIcon, canLoad);
    }
  }

  /** `FallbackOthers` when `t` is already mapped: only its descriptor
      changes. */
  lemma FallbackOthersHit(c: Cache<string>, id: nat, big: bool, t: CStr, xmlIcon: string -> string, canLoad: string -> bool)
    requires KeyedByText(c) && id in c.descs && c.descs[id].name.text != t.text
    requires t.text in c.entries
    ensures var r := FallbackIcon(c, id, big, t, xmlIcon, canLoad).0;
      forall o :: o in c.descs && o != id ==>
        && o in r.descs && r.descs[o] == WithSlot(c.descs[o], big, Slot(r.descs[o], big))
        && (r.descs[o] != c.descs[o] ==> o == c.entries[t.text])
  {
    var r := FallbackIcon(c, id, big, t, xmlIcon, canLoad).0;
    FallbackHit(c, id, big, t, xmlIcon, canLoad);
    var u := c.entries[t.text];
    forall o | o in c.descs && o != id
      ensures o in r.descs && r.descs[o] == WithSlot(c.descs[o], big, Slot(r.descs[o], big))
      ensures r.descs[o] != c.descs[o] ==> o == u
    {
      if o != u {
        assert r.descs[o] == c.descs[o];
      }
    }
  }

  /** `FallbackOthers` when `t` is not yet mapped: no earlier descriptor
      changes. */
  lemma FallbackOthersMiss(c: Cache<string>, id: nat, big: bool, t: CStr, xmlIcon: string -> string, canLoad: string -> bool)
    requires KeyedByText(c) && id in c.descs && c.descs[id].name.text != t.text
    requires t.text !in c.entries
    ensures var r := FallbackIcon(c, id, big, t, xmlIcon, canLoad).0;
      forall o :: o in c.descs && o != id ==> o in r.descs && r.descs[o] == c.descs[o]
  {
    FallbackMiss(c, id, big, t, xmlIcon, canLoad);
  }

  /** The first loadable name of a concatenation is the first part's, if it
      has one, and otherwise the second part's. */
  lemma {:induction false} FirstLoadableAppend(a: seq<string>, b: seq<string>, canLoad: string -> bool)
    ensures FirstLoadable(a + b, canLoad) ==
      if FirstLoadable(a, canLoad).Some? then FirstLoadable(a, canLoad) else FirstLoadable(b, canLoad)
  {
    if |a| > 0 {
      assert (a + b)[0] == a[0];
      assert (a + b)[1..] == a[1..] + b;
      FirstLoadableAppend(a[1..], b, canLoad);
    } else {
      assert a + b == b;
    }
  }

  /** The map holds a descriptor of the unknown type with an icon of this
      class already cached. */
  predicate UnknownCached(c: Cache<string>, big: bool)
  {
    UnknownType in c.entries && c.entries[UnknownType] in c.descs
    && Slot(c.descs[c.entries[UnknownType]], big).Some?
  }

  /** With nothing cached for the type or for the unknown type, the icon is
      the first loadable name of the type's whole candidate list. */
  lemma GetIconChain(c: Cache<string>, id: nat, big: bool, xmlIcon: string -> string, canLoad: string -> bool)
    requires KeyedByText(c) && id in c.descs
    requires Slot(c.descs[id], big).None? && !UnknownCached(c, big)
    ensures GetIcon(c, id, big, xmlIcon, canLoad).1 == FirstLoadable(Candidates(c.descs[id].name.text, xmlIcon), canLoad)
  {
    var t := c.descs[id].name.text;
    if t == UnknownType {
      SelfIconOfUnknown(c.descs[id], big, xmlIcon, canLoad);
    } else if t != DirectoryType {
      FirstLoadableAppend(OwnNames(t, xmlIcon), Candidates(UnknownType, xmlIcon), canLoad);
      if Fallback(c, id, big, xmlIcon, canLoad) {
        var (c1, u) := GetFromType(c, UnknownLiteral);
        SelfIconOfUnknown(c1.descs[u], big, xmlIcon, canLoad);
      }
    }
  }

  /** A fallback through a mapped unknown type with a cached icon returns
      that icon, and changes nothing but the requested slot: the reference it
      takes is given back. */
  lemma GetIconUnknownCached(c: Cache<string>, id: nat, big: bool, xmlIcon: string -> string, canLoad: string -> bool)
    requires KeyedByText(c) && id in c.descs
    requires Fallback(c, id, big, xmlIcon, canLoad) && UnknownCached(c, big)
    ensures var u := c.entries[UnknownType];
      GetIcon(c, id, big, xmlIcon, canLoad) == (Store(c, id, big, Slot(c.descs[u], big)), Slot(c.descs[u], big))
  {
    var u := c.entries[UnknownType];
    FallbackHit(c, id, big, UnknownLiteral, xmlIcon, canLoad);
    assert c.descs[u := WithSlot(c.descs[u], big, Slot(c.descs[u], big))] == c.descs;
  }

  /** Besides the requested descriptor, a call changes at most the unknown
      type's descriptor, and only in the requested class. */
  lemma GetIconOthers(c: Cache<string>, id: nat, big: bool, xmlIcon: string -> string, canLoad: string -> bool)
    requires KeyedByText(c) && id in c.descs
    ensures var r := GetIcon(c, id, big, xmlIcon, canLoad).0;
      forall o :: o in c.descs && o != id ==>
        o in r.descs && r.descs[o] == WithSlot(c.descs[o], big, Slot(r.descs[o], big))
    ensures var r := GetIcon(c, id, big, xmlIcon, canLoad).0;
      forall o :: o in c.descs && o != id && r.descs[o] != c.descs[o] ==>
        UnknownType in c.entries && o == c.entries[UnknownType]
  {
    if Fallback(c, id, big, xmlIcon, canLoad) {
      FallbackOthers(c, id, big, UnknownLiteral, xmlIcon, canLoad);
    }
  }

  /** The map only ever gains the unknown type, and a descriptor a call
      creates is the unknown type's, held by the map alone. */
  lemma GetIconNewEntries(c: Cache<string>, id: nat, big: bool, xmlIcon: string -> string, canLoad: string -> bool)
    requires KeyedByText(c) && id in c.descs
    ensures var r := GetIcon(c, id, big, xmlIcon, canLoad).0;
      forall k :: k in c.entries ==> k in r.entries && r.entries[k] == c.entries[k]
    ensures var r := GetIcon(c, id, big, xmlIcon, canLoad).0;
      forall k :: k in r.entries && k !in c.entries ==> k == UnknownType
    ensures var r := GetIcon(c, id, big, xmlIcon, canLoad).0;
      forall o :: o in r.descs && o !in c.descs ==>
        r.descs[o].name.text == UnknownType && r.descs[o].refs == 1 && r.entries[UnknownType] == o
  {
    if Fallback(c, id, big, xmlIcon, canLoad) {
      FallbackEntries(c, id, big, UnknownLiteral, xmlIcon, canLoad);
    }
  }

  /** Asking twice gives the same icon, and the second call changes nothing. */
  lemma GetIconTwice(c: Cache<string>, id: nat, big: bool, xmlIcon: string -> string, canLoad: string -> bool)
    requires KeyedByText(c) && id in c.descs
    ensures var (c1, i1) := GetIcon(c, id, big, xmlIcon, canLoad);
      GetIcon(c1, id, big, xmlIcon, canLoad) == (c1, i1)
  {
    var (c1, i1) := GetIcon(c, id, big, xmlIcon, canLoad);
    if i1.None? && Fallback(c1, id, big, xmlIcon, canLoad) {
      assert Fallback(c, id, big, xmlIcon, canLoad);
      SecondFallback(c, id, big, UnknownLiteral, xmlIcon, canLoad);
    }
  }

  /** After a fallback through `t` that found no icon, `t` is mapped and its
      slot records the missing icon, so the same fallback again finds nothing
      and changes nothing. */
  lemma SecondFallback(c: Cache<string>, id: nat, big: bool, t: CStr, xmlIcon: string -> string, canLoad: string -> bool)
    requires KeyedByText(c) && id in c.descs && c.descs[id].name.text != t.text
    requires FallbackIcon(c, id, big, t, xmlIcon, canLoad).1.None?
    ensures var c1 := FallbackIcon(c, id, big, t, xmlIcon, canLoad).0;
      FallbackIcon(c1, id, big, t, xmlIcon, canLoad) == (c1, None)
  {
    FallbackRecords(c, id, big, t, xmlIcon, canLoad);
    var c1 := FallbackIcon(c, id, big, t, xmlIcon, canLoad).0;
    FallbackFindsNothing(c1, id, big, t, xmlIcon, canLoad);
  }

  /** A fallback through a mapped `t` whose slot is empty, when nothing of
      `t`'s loads, stores nothing new and gives its reference back. */
  lemma FallbackFindsNothing(c: Cache<string>, id: nat, big: bool, t: CStr, xmlIcon: string -> string, canLoad: string -> bool)
    requires KeyedByText(c) && id in c.descs && c.descs[id].name.text != t.text
    requires t.text in c.entries && Slot(c.descs[c.entries[t.text]], big).None?
    requires Slot(c.descs[id], big).None?
    requires FirstLoadable(OwnNames(t.text, xmlIcon), canLoad).None? && FirstLoadable(["unknown"], canLoad).None?
    ensures FallbackIcon(c, id, big, t, xmlIcon, canLoad) == (c, None)
  {
    var u := c.entries[t.text];
    assert c.descs[u].name.text == t.text;
    FallbackHit(c, id, big, t, xmlIcon, canLoad);
    assert SelfIcon(c.descs[u], big, xmlIcon, canLoad) == None;
    assert c.descs[u := WithSlot(c.descs[u], big, None)] == c.descs;
    assert c.descs[id := WithSlot(c.descs[id], big, None)] == c.descs;
  }

  // ---------------------------------------------------------------------
  // Actions

  /** `vfs_mime_type_get_default_action`: the database's default application,
      else the first listed application, else none. */
  function DefaultAction(dbDefault: Option<string>, actions: seq<string>): (r: Option<string>)
    ensures r.None? <==> dbDefault.None? && |actions| == 0
    ensures r.Some? ==> r == dbDefault || r.value in actions
    ensures dbDefault.Some? ==> r == dbDefault
  {
    if dbDefault.Some? then dbDefault
    else if |actions| > 0 then Some(actions[0])
    else None
  }

  /** The fallback is the FIRST listed application, never a later one. */
  lemma DefaultActionFallsBackToFirst(actions: seq<string>, i: nat)
    requires 0 < i < |actions| && actions[i] != actions[0]
    ensures DefaultAction(None, actions) != Some(actions[i])
  {
  }

  /** `vfs_mime_type_add_action`: the custom desktop file it reports. A
      desktop id is returned as itself; anything else is a command line
      handed to the database, which may create a custom desktop file
      (`created`). */
  function AddAction(desktopId: string, created: Option<string>): (r: Option<string>)
    ensures EndsWith(desktopId, ".desktop") ==> r == Some(desktopId)
    ensures !EndsWith(desktopId, ".desktop") ==> r == created
  {
    if !EndsWith(desktopId, ".desktop") then created else Some(desktopId)
  }

  /** `vfs_mime_type_set_default_action`: the id written as the default
      association — the custom desktop file when one was reported, else the
      id given. */
  function DefaultAssociation(desktopId: string, created: Option<string>): (r: string)
    ensures r == desktopId || Some(r) == created
  {
    var custom := AddAction(desktopId, created);
    if custom.Some? then custom.value else desktopId
  }

  /** A desktop id becomes the default as itself, whatever the database would
      have created for a command line. */
  lemma DesktopIdIsItsOwnDefault(desktopId: string, created: Option<string>)
    requires EndsWith(desktopId, ".desktop")
    ensures DefaultAssociation(desktopId, created) == desktopId
  {
  }
}
