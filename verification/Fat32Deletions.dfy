/** What deleting an entry does to the names of the others: its long-name slots stay behind
    and go to the next entry. */
module Fat32Deletions {
  import opened Bytes
  import opened DirEntries
  import opened LongNames
  import opened StoredNames
  import opened Fat32Trees
  import opened Fat32FileSteps
  import opened Fat32DirSteps
  import opened Fat32Runs
  import opened Fat32Names

  // ------------------------------------------------------- what a scan holds

  lemma DeletedSlot(flat: Data, flat': Data, j: nat)
    requires SlotDeleted(flat, flat', j)
    ensures SLOT * j + SLOT <= |flat'| == |flat| && Kind(SlotOf(flat', j)) == Removed
  {
    hide Kind, FromBytes, DirEntry.ToBytes, DirEntry.MarkDeleted;
    DeletedSlotKind(FromBytes(SlotOf(flat, j)));
  }

  lemma SlotsAfterDelete(flat: Data, flat': Data, j: nat, i: nat)
    requires SlotDeleted(flat, flat', j) && SLOT * i + SLOT <= |flat| && i != j
    ensures |flat'| == |flat| && SlotOf(flat', i) == SlotOf(flat, i)
  {
  }

  // Only deleted and long-name slots lie from a up to b.
  ghost predicate Through(flat: Data, a: nat, b: nat) {
    forall i: nat :: a <= i < b && SLOT * i + SLOT <= |flat| ==> Kind(SlotOf(flat, i)) in {Removed, LongName}
  }

  lemma {:induction false} PendingAfterDelete(flat: Data, flat': Data, j: nat, i: nat)
    requires SlotDeleted(flat, flat', j) && SLOT * i <= |flat|
    ensures |flat'| == |flat|
    ensures Pending(flat', i) ==
      if i > j && Through(flat, j + 1, i) then Pending(flat, j) + Pending(flat, i) else Pending(flat, i)
  {
    hide Kind, SlotDeleted, LfnFromBytes;
    DeletedSlot(flat, flat', j);
    if i > 0 {
      PendingAfterDelete(flat, flat', j, i - 1);
      if i != j + 1 { SlotsAfterDelete(flat, flat', j, i - 1); }
      if i == j + 1 {
        assert Pending(flat, i) == [] by { EntryClears(flat, flat', j); }
        assert Pending(flat', i) == Pending(flat, j) + [];
      } else if i > j {
        assert Through(flat, j + 1, i) <==>
          Through(flat, j + 1, i - 1) && Kind(SlotOf(flat, i - 1)) in {Removed, LongName};
      }
    }
  }

  lemma EntryClears(flat: Data, flat': Data, j: nat)
    requires SlotDeleted(flat, flat', j)
    ensures Pending(flat, j + 1) == []
  {
    hide Kind;
  }

  // ------------------------------------------------------------- the listing

  // A scan reaches slot i: no end mark lies before it.
  ghost predicate Reached(flat: Data, i: nat) {
    SLOT * i + SLOT <= |flat| && forall h: nat :: h < i ==> Kind(SlotOf(flat, h)) != End
  }

  predicate IsEntry(flat: Data, i: nat)
    requires SLOT * i + SLOT <= |flat|
  {
    Kind(SlotOf(flat, i)) in {Dots, FileSlot, DirSlot}
  }

  // Slot i holds the first entry behind slot j.
  ghost predicate NextEntry(flat: Data, j: nat, i: nat) {
    j < i && SLOT * i + SLOT <= |flat| && Through(flat, j + 1, i) && IsEntry(flat, i)
  }

  // Two names that make no difference to a listing: dot names are not listed.
  predicate SameShown(a: string, b: string) {
    a == b || (IsDots(a) && IsDots(b))
  }

  // All entries but the one in slot j are listed as before.
  ghost predicate OthersListed(flat: Data, flat': Data, j: nat) {
    forall p :: p in Parse(flat', 0) <==> p in Parse(flat, 0) && p.offset != SLOT * j
  }

  // The deleted entry had no long name, or the next entry has the name that the long-name
  // slots of both spell together.
  ghost predicate NoNameTaken(flat: Data, j: nat)
    requires SLOT * j <= |flat|
  {
    Pending(flat, j) == []
    || forall i: nat :: NextEntry(flat, j, i) ==>
         SameShown(LongNameOf(Pending(flat, j) + Pending(flat, i)), NameAt(flat, i))
  }

  lemma ReachedSame(flat: Data, flat': Data, j: nat, i: nat)
    requires SlotDeleted(flat, flat', j)
    ensures Reached(flat', i) <==> Reached(flat, i)
  {
    hide Kind, SlotDeleted;
    DeletedSlot(flat, flat', j);
    if SLOT * i + SLOT <= |flat| {
      forall h: nat | h < i ensures Kind(SlotOf(flat', h)) == End <==> Kind(SlotOf(flat, h)) == End {
        if h == j { DeletedWasEntry(flat, flat', j); } else { SlotsAfterDelete(flat, flat', j, h); }
      }
    }
  }

  lemma DeletedWasEntry(flat: Data, flat': Data, j: nat)
    requires SlotDeleted(flat, flat', j)
    ensures SLOT * j + SLOT <= |flat| && IsEntry(flat, j)
  {
  }

  // Slot i is listed, under that name.
  ghost predicate Listed(flat: Data, i: nat, name: string) {
    Reached(flat, i) && Shown(flat, i) && NameAt(flat, i) == name
  }

  function Report(flat: Data, i: nat, name: string): Parsed
    requires SLOT * i + SLOT <= |flat|
  {
    Parsed(name, FromBytes(SlotOf(flat, i)), SLOT * i)
  }

  lemma ListedIsParsed(flat: Data, i: nat, name: string)
    requires SLOT * i + SLOT <= |flat|
    ensures Listed(flat, i, name) <==> Report(flat, i, name) in Parse(flat, 0)
  {
    hide Kind, FromBytes, NameAt, Shown, Parse;
    var p := Report(flat, i, name);
    ParseExact(flat, 0);
    if Listed(flat, i, name) { assert Live(flat, 0, i) && FromSlot(flat, p, i); }
    if p in Parse(flat, 0) {
      var h: nat :| Live(flat, 0, h) && FromSlot(flat, p, h);
      assert h == i;
    }
  }

  lemma ParsedIsListed(flat: Data, p: Parsed) returns (i: nat)
    requires p in Parse(flat, 0)
    ensures SLOT * i + SLOT <= |flat| && p == Report(flat, i, p.name)
  {
    hide Kind, FromBytes, NameAt, Shown, Parse;
    ParseExact(flat, 0);
    i :| Live(flat, 0, i) && FromSlot(flat, p, i);
  }

  // The listing stays exactly if every other slot is listed as before.
  lemma ListingIff(flat: Data, flat': Data, j: nat)
    requires SlotDeleted(flat, flat', j)
    ensures OthersListed(flat, flat', j) <==> forall i: nat, name: string :: i != j ==>
      (Listed(flat', i, name) <==> Listed(flat, i, name))
  {
    hide Kind, FromBytes, Listed, Parse, SlotDeleted;
    DeletedSlot(flat, flat', j);
    if OthersListed(flat, flat', j) {
      forall i: nat, name: string | i != j ensures Listed(flat', i, name) <==> Listed(flat, i, name) {
        SameReport(flat, flat', j, i, name);
      }
    }
    if forall i: nat, name: string :: i != j ==> (Listed(flat', i, name) <==> Listed(flat, i, name)) {
      forall p ensures p in Parse(flat', 0) <==> p in Parse(flat, 0) && p.offset != SLOT * j {
        if p in Parse(flat', 0) { var i := ParsedIsListed(flat', p); ReportKept(flat, flat', j, i, p); }
        if p in Parse(flat, 0) { var i := ParsedIsListed(flat, p); ReportKept(flat, flat', j, i, p); }
      }
    }
  }

  lemma SameReport(flat: Data, flat': Data, j: nat, i: nat, name: string)
    requires SlotDeleted(flat, flat', j) && i != j && OthersListed(flat, flat', j)
    ensures Listed(flat', i, name) <==> Listed(flat, i, name)
  {
    hide Kind, FromBytes, Parse, Shown, NameAt, SlotDeleted;
    DeletedSlot(flat, flat', j);
    if SLOT * i + SLOT <= |flat| {
      SlotsAfterDelete(flat, flat', j, i);
      ListedIsParsed(flat, i, name);
      ListedIsParsed(flat', i, name);
      assert Report(flat', i, name) == Report(flat, i, name);
    }
  }

  lemma ReportKept(flat: Data, flat': Data, j: nat, i: nat, p: Parsed)
    requires SlotDeleted(flat, flat', j) && SLOT * i + SLOT <= |flat| == |flat'|
    requires p == Report(flat, i, p.name) || p == Report(flat', i, p.name)
    requires i != j ==> (Listed(flat', i, p.name) <==> Listed(flat, i, p.name))
    ensures p in Parse(flat', 0) || p in Parse(flat, 0) ==>
      (p in Parse(flat', 0) <==> p in Parse(flat, 0) && p.offset != SLOT * j)
  {
    hide Kind, FromBytes, Parse, SlotDeleted, Listed;
    DeletedSlot(flat, flat', j);
    ListedIsParsed(flat, i, p.name);
    ListedIsParsed(flat', i, p.name);
    if i == j {
      RemovedNotListed(flat', j, p);
    } else {
      SlotsAfterDelete(flat, flat', j, i);
    }
  }

  lemma RemovedNotListed(flat: Data, j: nat, p: Parsed)
    requires SLOT * j + SLOT <= |flat| && Kind(SlotOf(flat, j)) == Removed && p.offset == SLOT * j
    ensures p !in Parse(flat, 0)
  {
    hide FromBytes, NameAt, Parse;
    ParseExact(flat, 0);
  }

  // Slot i in terms of the names before and after.
  lemma ListedAfter(flat: Data, flat': Data, j: nat, i: nat)
    requires SlotDeleted(flat, flat', j) && i != j && Reached(flat, i)
    ensures |flat'| == |flat| && Reached(flat', i) && (IsEntry(flat', i) <==> IsEntry(flat, i))
    ensures (forall name :: Listed(flat', i, name) <==> Listed(flat, i, name)) <==>
      (IsEntry(flat, i) ==> SameShown(NameAt(flat', i), NameAt(flat, i)))
  {
    hide Kind, FromBytes, SlotDeleted, NameAt, Reached;
    ReachedSame(flat, flat', j, i);
    ReachedIn(flat, i);
    DeletedSlot(flat, flat', j);
    SlotsAfterDelete(flat, flat', j, i);
    var a, b := NameAt(flat', i), NameAt(flat, i);
    assert forall name :: Listed(flat', i, name) <==> IsEntry(flat, i) && !IsDots(a) && name == a;
    assert forall name :: Listed(flat, i, name) <==> IsEntry(flat, i) && !IsDots(b) && name == b;
    if forall name :: Listed(flat', i, name) <==> Listed(flat, i, name) {
      assert Listed(flat', i, a) <==> Listed(flat, i, a);
      assert Listed(flat', i, b) <==> Listed(flat, i, b);
    }
  }

  lemma ReachedIn(flat: Data, i: nat)
    requires Reached(flat, i)
    ensures SLOT * i + SLOT <= |flat|
  {
  }

  // The name of slot i after the deletion.
  lemma NameAfter(flat: Data, flat': Data, j: nat, i: nat)
    requires SlotDeleted(flat, flat', j) && i != j && SLOT * i + SLOT <= |flat|
    ensures |flat'| == |flat|
    ensures NameAt(flat', i) ==
      if Pending(flat, j) != [] && j < i && Through(flat, j + 1, i)
      then LongNameOf(Pending(flat, j) + Pending(flat, i)) else NameAt(flat, i)
  {
    hide Kind, FromBytes, SlotDeleted, Pending, LongNameOf, Through, DirEntry.ShortName;
    DeletedSlot(flat, flat', j);
    SlotsAfterDelete(flat, flat', j, i);
    PendingAfterDelete(flat, flat', j, i);
    if Pending(flat, j) == [] { assert [] + Pending(flat, i) == Pending(flat, i); }
  }

  // Whatever lies between an entry that is reached and the next one, the scan goes on.
  lemma NextIsReached(flat: Data, j: nat, i: nat)
    requires Reached(flat, j) && IsEntry(flat, j) && NextEntry(flat, j, i)
    ensures Reached(flat, i)
  {
    hide SlotOf;
    forall h: nat | h < i ensures Kind(SlotOf(flat, h)) != End {
      if h > j { assert Kind(SlotOf(flat, h)) in {Removed, LongName}; }
    }
  }

  /** Deleting an entry that a scan reaches leaves the listing of all others as it was if and
      only if it had no long name, or its long-name slots make no difference to the entry
      behind it. */
  lemma DeleteKeepsNames(flat: Data, flat': Data, j: nat)
    requires SlotDeleted(flat, flat', j) && Reached(flat, j)
    ensures OthersListed(flat, flat', j) <==> NoNameTaken(flat, j)
  {
    hide Kind, SlotDeleted, Pending, Through, Listed, OthersListed, Reached, IsEntry, SameShown, NameAt;
    ReachedIn(flat, j);
    DeletedWasEntry(flat, flat', j);
    ListingIff(flat, flat', j);
    if NoNameTaken(flat, j) {
      forall i: nat, name: string | i != j ensures Listed(flat', i, name) <==> Listed(flat, i, name) {
        KeptWhere(flat, flat', j, i, name);
      }
    }
    if forall i: nat, name: string :: i != j ==> (Listed(flat', i, name) <==> Listed(flat, i, name)) {
      forall i: nat | Pending(flat, j) != [] && NextEntry(flat, j, i)
        ensures SameShown(LongNameOf(Pending(flat, j) + Pending(flat, i)), NameAt(flat, i))
      {
        NextIsReached(flat, j, i);
        ListedAfter(flat, flat', j, i);
        NameAfter(flat, flat', j, i);
      }
    }
  }

  lemma KeptWhere(flat: Data, flat': Data, j: nat, i: nat, name: string)
    requires SlotDeleted(flat, flat', j) && SLOT * j <= |flat| && NoNameTaken(flat, j) && i != j
    ensures Listed(flat', i, name) <==> Listed(flat, i, name)
  {
    hide Kind, SlotDeleted, Pending, Through, Reached, NameAt;
    ReachedSame(flat, flat', j, i);
    if Reached(flat, i) {
      ReachedIn(flat, i);
      ListedAfter(flat, flat', j, i);
      NameAfter(flat, flat', j, i);
    }
  }

  /** On every valid volume, long names included: a successful unlink or rmdir leaves the
      listing of all other entries of the directory as it was if and only if no name is taken
      over. */
  lemma DeletionLists(fs: Fs, op: FsOp, fs': Fs)
    requires fs.Valid() && Step(fs, op, fs') && (op.UnlinkOp? || op.RmdirOp?)
    ensures Found(fs, op.dir, op.name)
    ensures var d, k := op.dir, FoundSlot(fs, op.dir, op.name);
      && SlotDeleted(fs.ChainBytes(d), fs'.ChainBytes(d), k) && SLOT * k <= |fs.ChainBytes(d)|
      && (OthersListed(fs.ChainBytes(d), fs'.ChainBytes(d), k) <==> NoNameTaken(fs.ChainBytes(d), k))
  {
    hide Fs.Valid, Kind, FromBytes, Unlink, Rmdir, Lookup, Fs.ChainBytes, SlotDeleted, OthersListed, NoNameTaken;
    hide OthersKept, Parse, NameAt, SameName, Pending, Reached;
    var d, k := op.dir, FoundSlot(fs, op.dir, op.name);
    if op.UnlinkOp? { UnlinkStep(fs, d, op.name); } else { RmdirStep(fs, d, op.name); }
    EntryReached(fs, d, k);
    DeleteKeepsNames(fs.ChainBytes(d), fs'.ChainBytes(d), k);
  }

  lemma EntryReached(fs: Fs, d: nat, k: nat)
    requires fs.Valid() && Entry(fs, d, k)
    ensures Reached(fs.ChainBytes(d), k)
  {
    hide Fs.Valid, Kind, Fs.ChainBytes, Shown;
    EntryIsLive(fs, d, k);
  }

  // --------------------------------------------------------------- a case

  /** The entry right behind a deleted one with a long name is shown under that name. */
  lemma NextTakesName(flat: Data, flat': Data, j: nat)
    requires SlotDeleted(flat, flat', j) && Pending(flat, j) != [] && SLOT * (j + 1) + SLOT <= |flat|
    ensures |flat'| == |flat| && NameAt(flat', j + 1) == NameAt(flat, j)
    ensures NameAt(flat, j + 1) == FromBytes(SlotOf(flat, j + 1)).ShortName()
  {
    hide Kind, Pending, LongNameOf, FromBytes, DirEntry.ShortName, SlotDeleted;
    DeletedSlot(flat, flat', j);
    EntryClears(flat, flat', j);
    NameAfter(flat, flat', j, j + 1);
    assert Through(flat, j + 1, j + 1);
    assert Pending(flat, j) + [] == Pending(flat, j);
  }

  // A long-name slot that spells "x" and two files: deleting the first renames the second.
  lemma OrphanRenames(s: string, t: string)
    requires Legal83(s) && Legal83(t)
    ensures exists flat, flat' ::
      SlotDeleted(flat, flat', 1) && |flat'| == |flat| == 3 * SLOT && NameAt(flat, 2) == Stored(t)
      && NameAt(flat', 2) == "x"
  {
    hide Kind, FromBytes, DirEntry.ToBytes, NewFile, LongNameOf, Pending, SlotDeleted, Legal83, ShortForm;
    hide DirEntry.ShortName;
    hide LongSlot, Stored, Visible, DirEntry.MarkDeleted, LfnFromBytes;
    var x, a, b := LongSlot(), NewFile(s, 0, 0).ToBytes(), NewFile(t, 0, 0).ToBytes();
    var flat := x + a + b;
    assert SlotOf(flat, 0) == x && SlotOf(flat, 1) == a && SlotOf(flat, 2) == b;
    LongSlotReads();
    LegalIsVisible(s);
    NewSlotKind(s, 0);
    var flat' := Splice(flat, SLOT * 1, FromBytes(a).MarkDeleted().ToBytes());
    assert SlotDeleted(flat, flat', 1) by { IsDeleted(flat, flat', 1); }
    assert Pending(flat, 1) == [LfnFromBytes(x)] by { FirstPending(flat); }
    NextTakesName(flat, flat', 1);
    assert NameAt(flat, 1) == LongNameOf([LfnFromBytes(x)]);
    StoredEntry(t);
    assert NameAt(flat, 2) == Stored(t);
  }

  // A new entry behind a long-name slot that was left takes its name, whatever its own.
  lemma OrphanIsTaken(flat: Data, name: string)
    requires 2 * SLOT <= |flat| && SlotOf(flat, 0) == LongSlot() && Kind(SlotOf(flat, 1)) == Removed
    ensures ShownAs(flat, 1, name) == "x"
  {
    hide Kind, LongNameOf, Pending, LongSlot, LfnFromBytes, ShortForm;
    LongSlotReads();
    FirstPending(flat);
  }

  lemma StoredEntry(t: string)
    requires Legal83(t)
    ensures FromBytes(NewFile(t, 0, 0).ToBytes()).ShortName() == Stored(t)
  {
    hide FromBytes, DirEntry.ToBytes, NewFile, Legal83, DirEntry.ShortName, Stored;
    NewEntryName(t, 0);
    NameRoundTrip(Empty(), t);
  }

  lemma IsDeleted(flat: Data, flat': Data, j: nat)
    requires SLOT * j + SLOT <= |flat| && Kind(SlotOf(flat, j)) == FileSlot
    requires flat' == Splice(flat, SLOT * j, FromBytes(SlotOf(flat, j)).MarkDeleted().ToBytes())
    ensures SlotDeleted(flat, flat', j)
  {
    hide Kind, FromBytes, DirEntry.ToBytes;
    var b := FromBytes(SlotOf(flat, j)).MarkDeleted().ToBytes();
    forall i: nat | SLOT * i + SLOT <= |flat| ensures SlotOf(flat', i) == if i == j then b else SlotOf(flat, i) {
      SlotOfSplice(flat, j, b, i);
    }
  }

  lemma FirstPending(flat: Data)
    requires SLOT <= |flat| && Kind(SlotOf(flat, 0)) == LongName
    ensures Pending(flat, 1) == [LfnFromBytes(SlotOf(flat, 0))]
  {
    hide Kind, LfnFromBytes;
    assert Pending(flat, 0) == [];
  }

  function LongSlot(): (b: Data)
    ensures |b| == SLOT && b[0] == 0x41 && b[1] == 0x78 && b[11] == ATTR_LONG_NAME
    ensures forall i :: 2 <= i < SLOT && i != 11 ==> b[i] == 0
  {
    seq(SLOT, i => if i == 0 then 0x41 else if i == 1 then 0x78 else if i == 11 then ATTR_LONG_NAME else 0)
  }

  lemma LongSlotReads()
    ensures Kind(LongSlot()) == LongName && LongNameOf([LfnFromBytes(LongSlot())]) == "x"
  {
    hide LongSlot, FromBytes, LfnFromBytes, LongNameOf, LfnEntry.Units;
    var e := LfnFromBytes(LongSlot());
    LongSlotKind();
    LongSlotUnits();
    EndSplits(e);
    OneSlot(e);
    assert Decode([0x78]) == "x";
  }

  lemma LongSlotKind()
    ensures Kind(LongSlot()) == LongName
  {
    hide LongSlot, DirEntry.ShortName;
    var b := LongSlot();
    assert FromBytes(b).name[0] == b[0] && FromBytes(b).attr == b[11];
  }

  lemma LongSlotUnits()
    ensures var e := LfnFromBytes(LongSlot());
      e.name1[0] == 0x78 && e.name1[1] == 0 && e.name2[0] == 0 && e.name3[0] == 0
  {
    hide LongSlot;
    var b := LongSlot();
    assert FromLE16(b[1..3]) == 0x78 && FromLE16(b[3..5]) == 0 && FromLE16(b[14..16]) == 0 && FromLE16(b[28..30]) == 0;
  }

  lemma OneSlot(e: LfnEntry)
    ensures LongNameOf([e]) == Decode(e.Units())
  {
    hide Decode, LfnEntry.Units;
    var ps := Parts([e]);
    assert ps[..0] == [] && SortParts(ps) == [ps[0]];
    assert Join([ps[0]]) == "" + ps[0].text;
  }
}
