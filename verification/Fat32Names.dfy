/** Names in a directory: what is found under a name, what a created entry is found under,
    and when names stay distinct. */
module Fat32Names {
  import opened Results
  import opened Bytes
  import FatChains
  import opened DirEntries
  import opened LongNames
  import opened StoredNames
  import opened Fat32Volumes
  import opened Fat32Trees
  import opened Fat32FileSteps
  import opened Fat32DirSteps
  import opened Fat32Runs

  // ----------------------------------------------------------------- lookups

  ghost predicate Entry(fs: Fs, d: nat, k: nat) {
    fs.HasSlot(d, k) && fs.KindAt(d, k) in {FileSlot, DirSlot}
  }

  ghost predicate FreeSlot(fs: Fs, d: nat, k: nat) {
    fs.HasSlot(d, k) && fs.KindAt(d, k) in {End, Removed}
  }

  // The name a scan shows the entry under.
  ghost function NameOf(fs: Fs, d: nat, k: nat): string {
    if fs.HasSlot(d, k) then NameAt(fs.ChainBytes(d), k) else ""
  }

  ghost predicate Called(fs: Fs, d: nat, k: nat, name: string) {
    Entry(fs, d, k) && SameName(NameOf(fs, d, k), name)
  }

  lemma NameOfIs(fs: Fs, d: nat, k: nat)
    requires fs.HasSlot(d, k)
    ensures SLOT * k + SLOT <= |fs.ChainBytes(d)| && NameOf(fs, d, k) == NameAt(fs.ChainBytes(d), k)
  {
  }

  // In a valid directory the live slots are its entries.
  lemma EntryIsLive(fs: Fs, d: nat, k: nat)
    requires fs.Valid() && Entry(fs, d, k)
    ensures Live(fs.ChainBytes(d), 0, k)
  {
    hide Kind, FromBytes, Fs.ChainBytes, Fs.Valid, NameAt, Shown, FatChains.ChainMap;
    SlotShown(fs, d, k);
    var flat := fs.ChainBytes(d);
    forall i: nat | 0 <= i < k ensures Kind(SlotOf(flat, i)) != End {
      if Kind(SlotOf(flat, i)) == End { EndBefore(fs, d, i, k); }
    }
  }

  lemma {:induction false} FindsFirst(ps: seq<Parsed>, name: string)
    requires forall a, b :: 0 <= a < b < |ps| ==> ps[a].offset < ps[b].offset
    ensures FindName(ps, name).Some? ==>
      forall p :: p in ps && SameName(p.name, name) ==> FindName(ps, name).value.offset <= p.offset
  {
    hide SameName;
    if ps != [] {
      FindsFirst(ps[1..], name);
      if SameName(ps[0].name, name) {
        forall p | p in ps ensures ps[0].offset <= p.offset {
          var i :| 0 <= i < |ps| && ps[i] == p;
        }
      }
    }
  }

  /** Looking a name up fails exactly when no entry of the directory has it, and otherwise
      gives the first that has. */
  lemma LookupFinds(fs: Fs, d: nat, name: string)
    requires fs.Valid() && d in fs.dirs
    ensures fs.v.Wf()
    ensures Lookup(fs.v, d, name).Ok? <==> exists k :: Called(fs, d, k, name)
    ensures Lookup(fs.v, d, name).Ok? ==> Called(fs, d, FoundSlot(fs, d, name), name)
    ensures Lookup(fs.v, d, name).Ok? ==> forall k :: Called(fs, d, k, name) ==> FoundSlot(fs, d, name) <= k
    ensures Lookup(fs.v, d, name).Err? ==> Lookup(fs.v, d, name) == Err(NotFound)
  {
    hide Kind, FromBytes, Fs.ChainBytes, Fs.Valid, NameAt, Lookup, FatChains.ChainMap, SameName, Live, DirBytes;
    hide NameOf, Fs.Slot;
    RootBase(fs);
    DirBytesAre(fs, d);
    LookupIsSlot(fs, d, name);
    LookupExact(fs.v, d, name);
    if Lookup(fs.v, d, name).Ok? {
      NameOfIs(fs, d, FoundSlot(fs, d, name));
      assert Called(fs, d, FoundSlot(fs, d, name), name);
    }
    forall k | Called(fs, d, k, name)
      ensures Lookup(fs.v, d, name).Ok? && FoundSlot(fs, d, name) <= k
    {
      EntryIsLive(fs, d, k);
      NameOfIs(fs, d, k);
      FoundNoLater(fs, d, k, name);
    }
  }

  lemma FoundNoLater(fs: Fs, d: nat, k: nat, name: string)
    requires fs.v.Wf() && DirBytes(fs.v, d) == Ok(fs.ChainBytes(d)) && Live(fs.ChainBytes(d), 0, k)
    requires SameName(NameAt(fs.ChainBytes(d), k), name) && Lookup(fs.v, d, name).Ok?
    ensures FoundSlot(fs, d, name) <= k
  {
    hide Kind, FromBytes, NameAt, SameName, Fs.ChainBytes, Shown, Parse, DirBytes;
    var flat := fs.ChainBytes(d);
    var p := Parsed(NameAt(flat, k), FromBytes(SlotOf(flat, k)), SLOT * k);
    ParseExact(flat, 0);
    assert FromSlot(flat, p, k);
    FindsFirst(Parse(flat, 0), name);
  }

  // ---------------------------------------------------------- after creating

  // fs' is fs with one new entry in slot (d, k), stored under the given name.
  ghost predicate Added(fs: Fs, fs': Fs, d: nat, k: nat, name: string) {
    && fs.Valid() && fs'.Valid() && d in fs.dirs && d in fs'.dirs
    && FreeSlot(fs, d, k) && OthersKept(fs, fs', d, k)
    && Entry(fs', d, k) && fs'.EntryAt(d, k).ShortName() == ShortForm(name)
    && fs.dirs.Keys <= fs'.dirs.Keys
  }

  lemma NewEntryName(name: string, c: nat)
    requires c < U32
    ensures FromBytes(NewFile(name, 0, 0).ToBytes()).ShortName() == ShortForm(name)
    ensures FromBytes(NewDir(name, c).ToBytes()).ShortName() == ShortForm(name)
  {
    hide DirEntry.ToBytes, FromBytes, NewFile, NewDir, WithName, DirEntry.ShortName;
    FromToBytes(NewFile(name, 0, 0));
    FromToBytes(NewDir(name, c));
    NewEntryFields(name, c);
    SameFields(NewFile(name, 0, 0), WithName(Empty(), name));
    SameFields(NewDir(name, c), WithName(Empty(), name));
  }

  lemma FileIsAdded(fs: Fs, d: nat, name: string)
    requires fs.Valid() && d in fs.dirs && d < U32 && Visible(name) && Create(fs.v, d, name, File).0.Ok?
    ensures var (r, v') := Create(fs.v, d, name, File); Added(fs, fs.(v := v'), d, r.value / SLOT, name)
  {
    hide Fs.Valid, Kind, FromBytes, OthersKept, Create, Visible, Fs.ChainBytes, FatChains.ChainMap, DirEntry.ToBytes;
    hide ShortForm, Fs.Slot, DirEntry.ShortName;
    RootBase(fs);
    CreateFileStep(fs, d, name);
    NewEntryName(name, 0);
  }

  lemma DirIsAdded(fs: Fs, d: nat, name: string)
    requires fs.Valid() && d in fs.dirs && d < U32 && Visible(name) && Create(fs.v, d, name, Directory).0.Ok?
    ensures var (r, v') := Create(fs.v, d, name, Directory);
      exists k :: Added(fs, AfterMkdir(fs, d, r.value, v'), d, k, name)
  {
    hide Fs.Valid, Kind, FromBytes, OthersKept, Create, Visible, Fs.ChainBytes, FatChains.ChainMap, DirEntry.ToBytes;
    hide ShortForm, Fs.Slot, DirEntry.ShortName;
    RootBase(fs);
    MkdirStep(fs, d, name);
    var (r, v') := Create(fs.v, d, name, Directory);
    var fs' := AfterMkdir(fs, d, r.value, v');
    var k :| NewDirAt(fs, fs', d, k, name, r.value);
    NewEntryName(name, r.value);
    NewDirKind(name, r.value);
    assert Added(fs, fs', d, k, name);
  }

  lemma CreatedIsAdded(fs: Fs, op: FsOp, fs': Fs)
    requires fs.Valid() && Step(fs, op, fs') && (op.CreateOp? || op.MkdirOp?)
    ensures exists k :: Added(fs, fs', op.dir, k, op.name)
    ensures Lookup(fs.v, op.dir, op.name).Err?
  {
    hide Fs.Valid, Added, AddSlot, MakeDir, Lookup, Visible;
    if op.CreateOp? { FileIsAdded(fs, op.dir, op.name); } else { DirIsAdded(fs, op.dir, op.name); }
  }

  lemma AddedFacts(fs: Fs, fs': Fs, d: nat, k: nat, name: string)
    requires Added(fs, fs', d, k, name)
    ensures fs'.Valid() && d in fs.dirs && d in fs'.dirs && fs.HasSlot(d, k) && !Entry(fs, d, k)
    ensures Entry(fs', d, k) && fs'.HasSlot(d, k)
  {
  }

  // What the scan is holding depends on the slots before.
  // Changing one slot changes nothing that is held elsewhere, if neither the old nor the new
  // slot passes anything on.
  lemma {:induction false} PendingKept(flat: Data, flat': Data, k: nat, i: nat)
    requires SLOT * i <= |flat| && SLOT * i <= |flat'|
    requires forall j: nat :: j < i && j != k ==> SlotOf(flat', j) == SlotOf(flat, j)
    requires k < i ==>
      var a, b := Kind(SlotOf(flat, k)), Kind(SlotOf(flat', k));
      a != LongName && b != LongName && (Pending(flat, k) == [] || (a != Removed && b != Removed))
    ensures Pending(flat', i) == Pending(flat, i)
  {
    hide Kind, LfnFromBytes, SlotOf;
    if i > 0 { PendingKept(flat, flat', k, i - 1); }
  }

  // What the new entry is shown as: a long name that was left before its slot, or its own.
  ghost function ShownAs(flat: Data, k: nat, name: string): string
    requires SLOT * k <= |flat|
  {
    if Pending(flat, k) == [] then ShortForm(name) else LongNameOf(Pending(flat, k))
  }

  lemma SlotsOfAdded(fs: Fs, fs': Fs, d: nat, k: nat, name: string, e: nat, j: nat)
    requires Added(fs, fs', d, k, name) && fs'.HasSlot(e, j) && e in fs.dirs
    ensures fs.HasSlot(e, j) && SLOT * j + SLOT <= |fs.ChainBytes(e)| && SLOT * j + SLOT <= |fs'.ChainBytes(e)|
    ensures !(e == d && j == k) ==> SlotOf(fs'.ChainBytes(e), j) == SlotOf(fs.ChainBytes(e), j)
    ensures e == d && j == k ==> Kind(SlotOf(fs.ChainBytes(e), j)) in {End, Removed}
    ensures e == d && j == k ==> Kind(SlotOf(fs'.ChainBytes(e), j)) in {FileSlot, DirSlot}
  {
    hide Fs.Valid, Kind, FromBytes, Fs.ChainBytes, ShortForm, Fs.FileBytes, FatChains.ChainMap;
    assert SlotOf(fs'.ChainBytes(e), j) == fs'.Slot(e, j) && SlotOf(fs.ChainBytes(e), j) == fs.Slot(e, j);
  }

  lemma HeldBefore(fs: Fs, fs': Fs, d: nat, k: nat, name: string, e: nat, j: nat)
    requires Added(fs, fs', d, k, name) && fs'.HasSlot(e, j) && e in fs.dirs
    ensures SLOT * j <= |fs.ChainBytes(e)| && SLOT * j <= |fs'.ChainBytes(e)|
    ensures e != d || j <= k || Pending(fs.ChainBytes(d), k) == [] ==>
      Pending(fs'.ChainBytes(e), j) == Pending(fs.ChainBytes(e), j)
  {
    hide Fs.ChainBytes, SlotOf, Kind, Added, Pending;
    var flat, flat' := fs.ChainBytes(e), fs'.ChainBytes(e);
    SlotsOfAdded(fs, fs', d, k, name, e, j);
    forall i: nat | i < j
      ensures fs'.HasSlot(e, i) && (!(e == d && i == k) ==> SlotOf(flat', i) == SlotOf(flat, i))
    {
      SlotsOfAdded(fs, fs', d, k, name, e, i);
    }
    if e != d || j <= k {
      PendingKept(flat, flat', if e == d then k else j, j);
    } else if Pending(flat, k) == [] {
      SlotsOfAdded(fs, fs', d, k, name, d, k);
      PendingKept(flat, flat', k, j);
    }
  }

  /** The new entry is shown under a long name left before its slot if there is one, and
      under its stored name otherwise. */
  lemma NewEntryShown(fs: Fs, fs': Fs, d: nat, k: nat, name: string)
    requires Added(fs, fs', d, k, name)
    ensures SLOT * k <= |fs.ChainBytes(d)| && NameOf(fs', d, k) == ShownAs(fs.ChainBytes(d), k, name)
  {
    hide Fs.Valid, Kind, FromBytes, Fs.ChainBytes, ShortForm, Fs.FileBytes, FatChains.ChainMap, OthersKept, Pending;
    hide LongNameOf;
    HeldBefore(fs, fs', d, k, name, d, k);
    assert SlotOf(fs'.ChainBytes(d), k) == fs'.Slot(d, k);
  }

  // The entries of fs' are those of fs and the new one; those before it keep their names,
  // and if no long name was left there, all do.
  lemma AddedEntries(fs: Fs, fs': Fs, d: nat, k: nat, name: string, e: nat, j: nat)
    requires Added(fs, fs', d, k, name) && !(e == d && j == k)
    ensures SLOT * k <= |fs.ChainBytes(d)| && (Entry(fs', e, j) <==> Entry(fs, e, j))
    ensures Entry(fs', e, j) && (e != d || j < k || Pending(fs.ChainBytes(d), k) == []) ==>
      NameOf(fs', e, j) == NameOf(fs, e, j)
  {
    EntriesKept(fs, fs', d, k, name, e, j);
    AddedFacts(fs, fs', d, k, name);
    hide Added, Kind, FromBytes, Fs.ChainBytes, Pending, LongNameOf, DirEntry.ShortName, Fs.Valid;
    if Entry(fs', e, j) {
      HeldBefore(fs, fs', d, k, name, e, j);
      SlotsOfAdded(fs, fs', d, k, name, e, j);
    }
  }

  lemma EntriesKept(fs: Fs, fs': Fs, d: nat, k: nat, name: string, e: nat, j: nat)
    requires Added(fs, fs', d, k, name) && !(e == d && j == k)
    ensures Entry(fs', e, j) <==> Entry(fs, e, j)
  {
    hide Fs.Valid, Kind, FromBytes, Fs.ChainBytes, ShortForm, Fs.FileBytes, FatChains.ChainMap;
  }

  ghost predicate FoundAt(fs: Fs, d: nat, name: string, k: nat)
    requires fs.v.Wf()
  {
    Lookup(fs.v, d, name).Ok? && FoundSlot(fs, d, name) == k
  }

  /** Looking up the name of a file or directory that has just been created finds the new slot
      exactly when what the slot is shown as is that name.  Where no long name was left before
      the slot, the name is found if and only if it survives being stored. */
  lemma CreateThenLookup(fs: Fs, op: FsOp, fs': Fs, k: nat)
    requires fs.Valid() && Step(fs, op, fs') && (op.CreateOp? || op.MkdirOp?) && Added(fs, fs', op.dir, k, op.name)
    ensures fs'.v.Wf() && SLOT * k <= |fs.ChainBytes(op.dir)|
    ensures FoundAt(fs', op.dir, op.name, k) <==> SameName(ShownAs(fs.ChainBytes(op.dir), k, op.name), op.name)
    ensures Pending(fs.ChainBytes(op.dir), k) == [] ==>
      (Lookup(fs'.v, op.dir, op.name).Ok? <==> Faithful(op.name))
  {
    hide Fs.Valid, Kind, FromBytes, Step, Added, Lookup, ShortForm, SameName, FoundSlot, Pending, Called;
    hide Fs.ChainBytes, ShownAs;
    var d, name := op.dir, op.name;
    AddedFacts(fs, fs', d, k, name);
    NewIsCalled(fs, fs', d, k, name);
    LookupFinds(fs', d, name);
    forall j: nat | j != k && (j < k || Pending(fs.ChainBytes(d), k) == []) ensures !Called(fs', d, j, name) {
      OthersNotCalled(fs, op, fs', k, j);
    }
  }

  lemma NewIsCalled(fs: Fs, fs': Fs, d: nat, k: nat, name: string)
    requires Added(fs, fs', d, k, name)
    ensures SLOT * k <= |fs.ChainBytes(d)|
    ensures Called(fs', d, k, name) <==> SameName(ShownAs(fs.ChainBytes(d), k, name), name)
    ensures Pending(fs.ChainBytes(d), k) == [] ==> (Called(fs', d, k, name) <==> Faithful(name))
  {
    hide Fs.Valid, Added, SameName, Entry, NameOf, Pending, Fs.ChainBytes, ShortForm;
    AddedFacts(fs, fs', d, k, name);
    NewEntryShown(fs, fs', d, k, name);
  }

  lemma OthersNotCalled(fs: Fs, op: FsOp, fs': Fs, k: nat, j: nat)
    requires fs.Valid() && Step(fs, op, fs') && (op.CreateOp? || op.MkdirOp?) && Added(fs, fs', op.dir, k, op.name)
    requires j != k && SLOT * k <= |fs.ChainBytes(op.dir)| && (j < k || Pending(fs.ChainBytes(op.dir), k) == [])
    ensures !Called(fs', op.dir, j, op.name)
  {
    hide Fs.Valid, Step, Added, Lookup, SameName, Entry, NameOf, Pending, Fs.ChainBytes, ShortForm;
    var d, name := op.dir, op.name;
    CreatedIsAdded(fs, op, fs');
    AddedFacts(fs, fs', d, k, name);
    LookupFinds(fs, d, name);
    AddedEntries(fs, fs', d, k, name, d, j);
    assert !Called(fs, d, j, name);
  }

  // ------------------------------------------------- long names left behind

  // A scan that comes to slot k holds no long name.
  ghost predicate NoneHeld(fs: Fs, d: nat, k: nat) {
    fs.HasSlot(d, k) && Pending(fs.ChainBytes(d), k) == []
  }

  // No free slot has a long name before it, as deleting an entry can leave it there.
  ghost predicate NoOrphans(fs: Fs) {
    forall d, k :: FreeSlot(fs, d, k) ==> NoneHeld(fs, d, k)
  }

  // No directory holds long-name slots.
  ghost predicate ShortNamed(fs: Fs) {
    forall d, k :: fs.HasSlot(d, k) ==> fs.KindAt(d, k) != LongName
  }

  // Then nothing is ever held.
  lemma NothingHeld(fs: Fs, d: nat, k: nat)
    requires fs.HasSlot(d, k) && forall j: nat :: fs.HasSlot(d, j) ==> fs.KindAt(d, j) != LongName
    ensures NoneHeld(fs, d, k)
  {
    hide Kind, FromBytes, Fs.ChainBytes, Pending;
    var flat := fs.ChainBytes(d);
    forall j: nat | SLOT * j + SLOT <= |flat| ensures Kind(SlotOf(flat, j)) != LongName {
      assert fs.HasSlot(d, j) && SlotOf(flat, j) == fs.Slot(d, j);
    }
    NothingPending(flat, k);
  }

  lemma ShortHasNoOrphans(fs: Fs)
    requires ShortNamed(fs)
    ensures NoOrphans(fs) && forall d, k :: fs.HasSlot(d, k) ==> NoneHeld(fs, d, k)
  {
    hide Kind, FromBytes, Fs.ChainBytes, Fs.HasSlot, Fs.Slot, NoneHeld;
    forall d, k | fs.HasSlot(d, k) ensures NoneHeld(fs, d, k) { NothingHeld(fs, d, k); }
  }

  // What a step that leaves no long name behind does to the slots: it changes one, which
  // holds no part of a long name and passes none on.
  ghost predicate OneChanged(fs: Fs, fs': Fs, d: nat, k: nat) {
    && OthersKept(fs, fs', d, k) && fs.HasSlot(d, k) && fs.KindAt(d, k) != LongName
    && (fs'.HasSlot(d, k) ==> fs'.KindAt(d, k) != LongName)
    && (fs'.HasSlot(d, k) ==> NoneHeld(fs, d, k) || (Entry(fs, d, k) && Entry(fs', d, k)))
  }

  lemma SlotsOfChanged(fs: Fs, fs': Fs, d: nat, k: nat, e: nat, j: nat)
    requires OneChanged(fs, fs', d, k) && fs'.HasSlot(e, j) && e in fs.dirs
    ensures fs.HasSlot(e, j) && SLOT * j + SLOT <= |fs.ChainBytes(e)| && SLOT * j + SLOT <= |fs'.ChainBytes(e)|
    ensures SlotOf(fs.ChainBytes(e), j) == fs.Slot(e, j) && SlotOf(fs'.ChainBytes(e), j) == fs'.Slot(e, j)
    ensures !(e == d && j == k) ==> fs'.Slot(e, j) == fs.Slot(e, j)
  {
    hide Kind, FromBytes, Fs.ChainBytes, Fs.FileBytes, NoneHeld;
  }

  // It changes nothing that is held anywhere.
  lemma HeldKept(fs: Fs, fs': Fs, d: nat, k: nat, e: nat, j: nat)
    requires OneChanged(fs, fs', d, k) && fs'.HasSlot(e, j) && e in fs.dirs
    ensures SLOT * j <= |fs.ChainBytes(e)| && SLOT * j <= |fs'.ChainBytes(e)|
    ensures Pending(fs'.ChainBytes(e), j) == Pending(fs.ChainBytes(e), j)
  {
    hide Fs.ChainBytes, SlotOf, Kind, Pending, OthersKept;
    var flat, flat' := fs.ChainBytes(e), fs'.ChainBytes(e);
    SlotsOfChanged(fs, fs', d, k, e, j);
    forall i: nat | i < j
      ensures fs'.HasSlot(e, i) && SlotOf(flat, i) == fs.Slot(e, i) && SlotOf(flat', i) == fs'.Slot(e, i)
      ensures !(e == d && i == k) ==> SlotOf(flat', i) == SlotOf(flat, i)
    {
      SlotsOfChanged(fs, fs', d, k, e, i);
    }
    PendingKept(flat, flat', if e == d then k else j, j);
  }

  lemma OrphanlessAfter(fs: Fs, fs': Fs, d: nat, k: nat)
    requires OneChanged(fs, fs', d, k) && NoOrphans(fs) && (FreeSlot(fs', d, k) ==> NoneHeld(fs, d, k))
    ensures NoOrphans(fs')
  {
    hide Fs.ChainBytes, Kind, Pending, OneChanged;
    forall e, j | FreeSlot(fs', e, j) ensures NoneHeld(fs', e, j) {
      if e in fs.dirs {
        HeldKept(fs, fs', d, k, e, j);
        SlotsOfChanged(fs, fs', d, k, e, j);
        assert !(e == d && j == k) ==> FreeSlot(fs, e, j);
      } else {
        NewDirIsShort(fs, fs', d, k, e);
        NothingHeld(fs', e, j);
      }
    }
  }

  lemma NewDirIsShort(fs: Fs, fs': Fs, d: nat, k: nat, e: nat)
    requires OneChanged(fs, fs', d, k) && e !in fs.dirs
    ensures forall j: nat :: fs'.HasSlot(e, j) ==> fs'.KindAt(e, j) != LongName
  {
    hide Kind, FromBytes, Fs.ChainBytes, Fs.FileBytes, NoneHeld;
  }

  // Deleting an entry with a long name leaves that behind; every other operation is neat.
  ghost predicate Neat(fs: Fs, op: FsOp)
    requires fs.v.Wf()
  {
    (op.UnlinkOp? || op.RmdirOp?) && Found(fs, op.dir, op.name) ==>
      NoneHeld(fs, op.dir, FoundSlot(fs, op.dir, op.name))
  }

  lemma NeatStep(fs: Fs, op: FsOp, fs': Fs) returns (k: nat)
    requires fs.Valid() && Step(fs, op, fs') && NoOrphans(fs) && Neat(fs, op)
    ensures OneChanged(fs, fs', op.dir, k) && (FreeSlot(fs', op.dir, k) ==> NoneHeld(fs, op.dir, k))
    ensures op.CreateOp? || op.MkdirOp? ==> Added(fs, fs', op.dir, k, op.name) && NoneHeld(fs, op.dir, k)
    ensures !op.CreateOp? && !op.MkdirOp? && Entry(fs', op.dir, k) ==>
      Entry(fs, op.dir, k) && fs'.EntryAt(op.dir, k).ShortName() == fs.EntryAt(op.dir, k).ShortName()
  {
    if op.CreateOp? || op.MkdirOp? {
      hide Fs.Valid, Step, NoneHeld, OneChanged, NoOrphans, Added;
      CreatedIsAdded(fs, op, fs');
      k :| Added(fs, fs', op.dir, k, op.name);
      AddedIsNeat(fs, fs', op.dir, k, op.name);
    } else {
      k := OtherNeatStep(fs, op, fs');
    }
  }

  lemma AddedIsNeat(fs: Fs, fs': Fs, d: nat, k: nat, name: string)
    requires Added(fs, fs', d, k, name) && NoOrphans(fs)
    ensures OneChanged(fs, fs', d, k) && NoneHeld(fs, d, k) && !FreeSlot(fs', d, k)
  {
    hide Fs.Valid, Kind, OthersKept, ShortForm, NoneHeld, Fs.HasSlot, Fs.Slot, FromBytes;
    assert FreeSlot(fs, d, k);
  }

  lemma OtherNeatStep(fs: Fs, op: FsOp, fs': Fs) returns (k: nat)
    requires fs.Valid() && Step(fs, op, fs') && !op.CreateOp? && !op.MkdirOp? && Neat(fs, op)
    ensures OneChanged(fs, fs', op.dir, k) && (FreeSlot(fs', op.dir, k) ==> NoneHeld(fs, op.dir, k))
    ensures Entry(fs', op.dir, k) ==>
      Entry(fs, op.dir, k) && fs'.EntryAt(op.dir, k).ShortName() == fs.EntryAt(op.dir, k).ShortName()
  {
    hide Fs.Valid, Kind, FromBytes, OthersKept, WriteFile, TruncateFile, Unlink, Rmdir, Lookup, Fs.ChainBytes, Parse;
    hide FatChains.ChainMap, Written, Resized, Fs.FileBytes, DirEntry.ShortName, SlotDeleted, NameAt, NoneHeld;
    var d := op.dir;
    match op
    case WriteOp(_, j, off, buf) =>
      k := j;
      if buf == [] {
        WriteNothing(fs, d, k, off);
        NothingChanged(fs, d, k);
      } else {
        WriteRefines(fs, d, k, off, buf);
      }
    case TruncateOp(_, j, size) =>
      k := j;
      TruncateRefines(fs, d, k, size);
    case UnlinkOp(_, name) =>
      k := FoundSlot(fs, d, name);
      UnlinkStep(fs, d, name);
    case RmdirOp(_, name) =>
      k := FoundSlot(fs, d, name);
      RmdirStep(fs, d, name);
  }

  // Entries other than the one touched keep their names.
  lemma NameKept(fs: Fs, fs': Fs, d: nat, k: nat, e: nat, j: nat)
    requires OneChanged(fs, fs', d, k) && Entry(fs', e, j)
    requires e == d && j == k ==> Entry(fs, e, j) && fs'.EntryAt(e, j).ShortName() == fs.EntryAt(e, j).ShortName()
    ensures Entry(fs, e, j) && NameOf(fs', e, j) == NameOf(fs, e, j)
  {
    assert e in fs.dirs && Entry(fs, e, j) by { EntryBack(fs, fs', d, k, e, j); }
    hide Kind, FromBytes, Fs.ChainBytes, Pending, LongNameOf, DirEntry.ShortName, OneChanged;
    HeldKept(fs, fs', d, k, e, j);
    SlotsOfChanged(fs, fs', d, k, e, j);
  }

  lemma EntryBack(fs: Fs, fs': Fs, d: nat, k: nat, e: nat, j: nat)
    requires OneChanged(fs, fs', d, k) && Entry(fs', e, j) && (e == d && j == k ==> Entry(fs, e, j))
    ensures Entry(fs, e, j)
  {
    hide Kind, FromBytes, Fs.ChainBytes, Fs.FileBytes, DirEntry.ShortName, NoneHeld;
  }

  // --------------------------------------------------------- distinct names

  lemma SameNameIsEquivalence(a: string, b: string, c: string)
    ensures SameName(a, a) && (SameName(a, b) ==> SameName(b, a))
    ensures SameName(a, b) && SameName(b, c) ==> SameName(a, c)
  {
  }

  ghost predicate NamesDistinct(fs: Fs) {
    forall d, j, k :: Entry(fs, d, j) && Entry(fs, d, k) && j != k ==> !SameName(NameOf(fs, d, j), NameOf(fs, d, k))
  }

  // With no long name left before it, the new entry has its stored name, the others theirs.
  lemma PlainlyAdded(fs: Fs, fs': Fs, d: nat, k: nat, name: string, e: nat, j: nat)
    requires Added(fs, fs', d, k, name) && NoneHeld(fs, d, k)
    ensures NameOf(fs', d, k) == ShortForm(name)
    ensures !(e == d && j == k) ==> (Entry(fs', e, j) <==> Entry(fs, e, j))
    ensures !(e == d && j == k) && Entry(fs', e, j) ==> NameOf(fs', e, j) == NameOf(fs, e, j)
  {
    hide Added, Fs.Valid, Entry, NameOf, ShortForm, Fs.ChainBytes, Pending;
    NewEntryShown(fs, fs', d, k, name);
    if !(e == d && j == k) { AddedEntries(fs, fs', d, k, name, e, j); }
  }

  /** Creating in a slot with no long name left before it keeps names distinct exactly when no
      entry has the name in its stored form: the check for an existing entry looks for the
      name as given. */
  lemma CreateKeepsDistinct(fs: Fs, op: FsOp, fs': Fs, k: nat)
    requires fs.Valid() && Step(fs, op, fs') && (op.CreateOp? || op.MkdirOp?) && NamesDistinct(fs)
    requires Added(fs, fs', op.dir, k, op.name) && NoneHeld(fs, op.dir, k)
    ensures NamesDistinct(fs') <==> !exists j :: Called(fs, op.dir, j, ShortForm(op.name))
  {
    hide Fs.Valid, Kind, FromBytes, Step, Added, Lookup, ShortForm, SameName, Entry, NameOf, NoneHeld;
    var d, name := op.dir, op.name;
    AddedFacts(fs, fs', d, k, name);
    PlainlyAdded(fs, fs', d, k, name, d, k);
    if j :| Called(fs, d, j, ShortForm(name)) {
      PlainlyAdded(fs, fs', d, k, name, d, j);
      assert Entry(fs', d, j) && Entry(fs', d, k) && j != k;
    } else {
      forall e, i, j | Entry(fs', e, i) && Entry(fs', e, j) && i != j
        ensures !SameName(NameOf(fs', e, i), NameOf(fs', e, j))
      {
        PlainlyAdded(fs, fs', d, k, name, e, i);
        PlainlyAdded(fs, fs', d, k, name, e, j);
        if e == d && i == k {
          SameNameIsEquivalence(NameOf(fs', e, i), NameOf(fs', e, j), ShortForm(name));
          assert !Called(fs, d, j, ShortForm(name));
        } else if e == d && j == k {
          assert !Called(fs, d, i, ShortForm(name));
        }
      }
    }
  }

  lemma FaithfulIsFree(fs: Fs, op: FsOp, fs': Fs, k: nat)
    requires fs.Valid() && Step(fs, op, fs') && (op.CreateOp? || op.MkdirOp?) && Faithful(op.name)
    ensures !Called(fs, op.dir, k, ShortForm(op.name))
  {
    hide Fs.Valid, Kind, FromBytes, Step, Added, Lookup, ShortForm, SameName, Entry, NameOf;
    CreatedIsAdded(fs, op, fs');
    assert op.dir in fs.dirs by {
      var j :| Added(fs, fs', op.dir, j, op.name);
      AddedFacts(fs, fs', op.dir, j, op.name);
    }
    LookupFinds(fs, op.dir, op.name);
    SameNameIsEquivalence(NameOf(fs, op.dir, k), ShortForm(op.name), op.name);
    assert Called(fs, op.dir, k, ShortForm(op.name)) ==> Called(fs, op.dir, k, op.name);
  }

  /** Over every run in which new names survive being stored, as all legal 8.3 names do, and
      deleted entries have no long name, no directory ever holds two entries with the same
      name, long names included. */
  lemma {:induction false} RunKeepsDistinct(states: seq<Fs>, ops: seq<FsOp>, n: nat)
    requires IsRun(states, ops) && n <= |ops| && states[0].Valid() && NoOrphans(states[0]) && NamesDistinct(states[0])
    requires forall i :: 0 <= i < n && (ops[i].CreateOp? || ops[i].MkdirOp?) ==> Faithful(ops[i].name)
    requires forall i :: 0 <= i < n ==> states[i].v.Wf() && Neat(states[i], ops[i])
    ensures NoOrphans(states[n]) && NamesDistinct(states[n])
  {
    hide Fs.Valid, Step, NamesDistinct, NoOrphans, Neat;
    if n > 0 {
      RunKeepsDistinct(states, ops, n - 1);
      RunKeepsValid(states, ops, n - 1);
      assert Step(states[n - 1], ops[n - 1], states[n - 1 + 1]);
      StepKeepsDistinct(states[n - 1], ops[n - 1], states[n]);
    }
  }

  lemma StepKeepsDistinct(fs: Fs, op: FsOp, fs': Fs)
    requires fs.Valid() && Step(fs, op, fs') && NoOrphans(fs) && NamesDistinct(fs) && Neat(fs, op)
    requires op.CreateOp? || op.MkdirOp? ==> Faithful(op.name)
    ensures NoOrphans(fs') && NamesDistinct(fs')
  {
    hide Fs.Valid, Step, NameOf, SameName, Faithful, ShortForm, Entry, NoneHeld, OneChanged, FreeSlot, Added, Neat;
    hide NoOrphans, FromBytes, DirEntry.ShortName;
    var k := NeatStep(fs, op, fs');
    OrphanlessAfter(fs, fs', op.dir, k);
    if op.CreateOp? || op.MkdirOp? {
      CreateKeepsDistinct(fs, op, fs', k);
      forall j ensures !Called(fs, op.dir, j, ShortForm(op.name)) { FaithfulIsFree(fs, op, fs', j); }
    } else {
      forall d, i, j | Entry(fs', d, i) && Entry(fs', d, j) && i != j
        ensures !SameName(NameOf(fs', d, i), NameOf(fs', d, j))
      {
        NameKept(fs, fs', op.dir, k, d, i);
        NameKept(fs, fs', op.dir, k, d, j);
      }
    }
  }

  ghost predicate NamedTwice(fs: Fs, d: nat, j: nat, k: nat, name: string) {
    Entry(fs, d, j) && Entry(fs, d, k) && NameOf(fs, d, j) == name == NameOf(fs, d, k)
  }

  /** Where no long names were left behind, two successful creations of one name in a row
      leave two entries of the same name; a name that survives being stored is refused the
      second time. */
  lemma CreatedTwice(fs: Fs, op: FsOp, fs1: Fs, fs2: Fs)
    requires fs.Valid() && NoOrphans(fs) && op.CreateOp? && Step(fs, op, fs1) && Step(fs1, op, fs2)
    ensures !Faithful(op.name)
    ensures exists j, k :: j != k && NamedTwice(fs2, op.dir, j, k, ShortForm(op.name))
  {
    hide Fs.Valid, Kind, FromBytes, Step, Added, Lookup, ShortForm, SameName, Entry, NameOf, Faithful, NoOrphans;
    hide Pending, Fs.ChainBytes, OneChanged, FreeSlot;
    var d, name := op.dir, op.name;
    var j := NeatStep(fs, op, fs1);
    AddedFacts(fs, fs1, d, j, name);
    PlainlyAdded(fs, fs1, d, j, name, d, j);
    CreateThenLookup(fs, op, fs1, j);
    OrphanlessAfter(fs, fs1, d, j);
    CreatedIsAdded(fs1, op, fs2);
    var k := NeatStep(fs1, op, fs2);
    AddedFacts(fs1, fs2, d, k, name);
    PlainlyAdded(fs1, fs2, d, k, name, d, j);
    assert NamedTwice(fs2, d, j, k, ShortForm(name));
  }
}
