/** Runs on the device itself: each operation of the file and directory objects is one step of
    the volume the bytes hold, so whole runs keep the file system and the FAT copies intact. */
module Fat32Devices {
  import opened Results
  import opened Bytes
  import opened RamDisks
  import opened Fat32Layout
  import opened DirEntries
  import opened Fat32Volumes
  import opened Fat32Trees
  import opened Fat32FileSteps
  import opened Fat32DirSteps
  import opened Fat32Nodes
  import opened Fat32Runs

  // The device's bytes hold the file system, and its FAT copies agree.
  ghost predicate Holds(b: Boot, d: Data, fs: Fs) {
    Fits(b, d) && Mirrored(b, d) && fs.v == View(b, d) && fs.Valid()
  }

  // The operation turns bytes d, which hold fs, into bytes d', which hold fs'.
  ghost predicate DeviceStep(b: Boot, d: Data, fs: Fs, op: FsOp, d': Data, fs': Fs) {
    Kept(b, d, d') && Fits(b, d') && fs.v == View(b, d) && fs'.v == View(b, d') && Step(fs, op, fs')
  }

  lemma IsDeviceStep(b: Boot, d: Data, fs: Fs, op: FsOp, d': Data, fs': Fs)
    requires Kept(b, d, d')
    requires Fits(b, d')
    requires fs.v == View(b, d)
    requires fs'.v == View(b, d')
    requires Step(fs, op, fs')
    ensures DeviceStep(b, d, fs, op, d', fs') && Enabled(fs, op)
  {
    hide View, Step, Fits;
  }

  lemma DeviceStepHolds(b: Boot, d: Data, fs: Fs, op: FsOp, d': Data, fs': Fs)
    requires Holds(b, d, fs) && DeviceStep(b, d, fs, op, d', fs')
    ensures Holds(b, d', fs')
  {
    hide Fs.Valid, Step, View, Fits, Mirrored;
    StepIsGood(fs, op, fs');
  }

  ghost predicate IsDeviceRun(b: Boot, disks: seq<Data>, states: seq<Fs>, ops: seq<FsOp>) {
    && |disks| == |states| == |ops| + 1
    && forall i :: 0 <= i < |ops| ==> DeviceStep(b, disks[i], states[i], ops[i], disks[i + 1], states[i + 1])
  }

  /** After every step of every successful run the device holds a valid file system, with
      all FAT copies equal. */
  lemma {:induction false} DeviceRunHolds(b: Boot, disks: seq<Data>, states: seq<Fs>, ops: seq<FsOp>, n: nat)
    requires IsDeviceRun(b, disks, states, ops) && n <= |ops| && Holds(b, disks[0], states[0])
    ensures Holds(b, disks[n], states[n])
  {
    hide Holds, DeviceStep;
    if n > 0 {
      DeviceRunHolds(b, disks, states, ops, n - 1);
      assert DeviceStep(b, disks[n - 1], states[n - 1], ops[n - 1], disks[n - 1 + 1], states[n - 1 + 1]);
      DeviceStepHolds(b, disks[n - 1], states[n - 1], ops[n - 1], disks[n], states[n]);
    }
  }

  ghost predicate Enabled(fs: Fs, op: FsOp) {
    exists fs' :: Step(fs, op, fs')
  }

  ghost function Deleted(fs: Fs, op: FsOp, v: Volume): Fs
    requires fs.v.Wf() && (op.UnlinkOp? || op.RmdirOp?) && Found(fs, op.dir, op.name)
  {
    AfterDelete(fs, fs.RefAt(op.dir, FoundSlot(fs, op.dir, op.name)), v)
  }

  // What an operation answers on the volume decides whether there is such a step.
  lemma CreateEnabled(fs: Fs, op: FsOp)
    requires fs.v.Wf() && Applies(fs, op) && (op.CreateOp? || op.MkdirOp?)
    ensures var (r, v') := Create(fs.v, op.dir, op.name, if op.CreateOp? then File else Directory);
      if r.Ok? then Step(fs, op, if op.CreateOp? then fs.(v := v') else AfterMkdir(fs, op.dir, r.value, v'))
      else !Enabled(fs, op)
  {
    hide Create, Fs.HasSlot, Visible;
  }

  lemma DeleteEnabled(fs: Fs, op: FsOp)
    requires fs.Valid() && fs.v.Wf() && Applies(fs, op) && (op.UnlinkOp? || op.RmdirOp?)
    ensures var (r, v') := if op.UnlinkOp? then Unlink(fs.v, op.dir, op.name) else Rmdir(fs.v, op.dir, op.name);
      if r.Ok? then
        && Found(fs, op.dir, op.name)
        && Step(fs, op, Deleted(fs, op, v')) && Deleted(fs, op, v').v == v'
      else !Enabled(fs, op)
  {
    hide Fs.Valid, Unlink, Rmdir, Lookup, Fs.HasSlot, Fs.ChainBytes, OthersKept, Kind, FromBytes, Parse;
    if op.UnlinkOp? {
      UnlinkStep(fs, op.dir, op.name);
      assert Unlink(fs.v, op.dir, op.name).0.Ok? ==> Lookup(fs.v, op.dir, op.name).Ok? by {
        DeletesFound(fs, op.dir, op.name);
      }
    } else {
      RmdirStep(fs, op.dir, op.name);
      assert Rmdir(fs.v, op.dir, op.name).0.Ok? ==> Lookup(fs.v, op.dir, op.name).Ok? by {
        DeletesFound(fs, op.dir, op.name);
      }
    }
  }

  lemma DeletesFound(fs: Fs, d: nat, name: string)
    requires fs.v.Wf()
    ensures Unlink(fs.v, d, name).0.Ok? || Rmdir(fs.v, d, name).0.Ok? ==> Lookup(fs.v, d, name).Ok?
  {
    hide Lookup, Delete, Parse, DirBytes;
  }

  lemma FileOpEnabled(fs: Fs, op: FsOp)
    requires fs.v.Wf() && Applies(fs, op) && (op.WriteOp? || op.TruncateOp?)
    ensures op.WriteOp? ==>
      var o := WriteFile(fs.v, fs.HandleAt(op.dir, op.slot), op.off, op.buf);
      if o.result.Ok? then Step(fs, op, AfterFileOp(fs, op.dir, op.slot, o.volume, o.handle)) else !Enabled(fs, op)
    ensures op.TruncateOp? ==>
      var o := TruncateFile(fs.v, fs.HandleAt(op.dir, op.slot), op.size);
      if o.result.Ok? then Step(fs, op, AfterFileOp(fs, op.dir, op.slot, o.volume, o.handle)) else !Enabled(fs, op)
  {
    hide WriteFile, TruncateFile, AfterFileOp, Kind, FromBytes, Fs.ChainBytes;
  }

  // What the device may be asked to do: the file system it holds is valid.
  ghost predicate Ready(device: RamDisk, boot: Boot, op: FsOp, fs: Fs)
    reads device
  {
    Mounted(device, boot) && fs.Valid() && fs.v == View(boot, device.data) && Applies(fs, op)
  }

  lemma ReadyMeans(device: RamDisk, boot: Boot, op: FsOp, fs: Fs)
    requires Ready(device, boot, op, fs)
    ensures Mounted(device, boot) && Fits(boot, device.data) && fs.v == View(boot, device.data) && fs.Valid()
    ensures fs.v.Wf()
    ensures Applies(fs, op) && op.dir < U32
  {
  }

  /** The objects carry out the steps: an operation succeeds exactly when the file system has
      such a step, and then the device holds the state after it. */
  method Perform(device: RamDisk, boot: Boot, op: FsOp, ghost fs: Fs) returns (ok: bool, ghost fs': Fs)
    requires Ready(device, boot, op, fs)
    modifies device`data
    ensures Mounted(device, boot) && Kept(boot, old(device.data), device.data)
    ensures ok <==> Enabled(fs, op)
    ensures ok ==> DeviceStep(boot, old(device.data), fs, op, device.data, fs')
  {
    hide Ready, Mounted, Kept, Enabled, DeviceStep;
    match op
    case CreateOp(_, _) => ok, fs' := PerformCreate(device, boot, op, fs);
    case MkdirOp(_, _) => ok, fs' := PerformCreate(device, boot, op, fs);
    case WriteOp(_, _, _, _) => ok, fs' := PerformFileOp(device, boot, op, fs);
    case TruncateOp(_, _, _) => ok, fs' := PerformFileOp(device, boot, op, fs);
    case UnlinkOp(_, _) => ok, fs' := PerformDelete(device, boot, op, fs);
    case RmdirOp(_, _) => ok, fs' := PerformDelete(device, boot, op, fs);
  }

  method PerformCreate(device: RamDisk, boot: Boot, op: FsOp, ghost fs: Fs) returns (ok: bool, ghost fs': Fs)
    requires Ready(device, boot, op, fs) && (op.CreateOp? || op.MkdirOp?)
    modifies device`data
    ensures Mounted(device, boot) && Kept(boot, old(device.data), device.data)
    ensures ok <==> Enabled(fs, op)
    ensures ok ==> DeviceStep(boot, old(device.data), fs, op, device.data, fs')
  {
    hide Fs.Valid, View, RamDisk.Valid, Create, Fits, Mirrored, Enabled, Step, Applies, Ready, DeviceStep;
    ReadyMeans(device, boot, op, fs);
    CreateEnabled(fs, op);
    var dir := new Fat32Dir(device, boot, op.dir);
    var r := dir.Create(op.name, if op.CreateOp? then File else Directory);
    ok := r.Ok?;
    fs' := fs;
    if ok {
      ghost var v' := View(boot, device.data);
      fs' := if op.CreateOp? then fs.(v := v') else AfterMkdir(fs, op.dir, r.value, v');
      assert Step(fs, op, fs');
      IsDeviceStep(boot, old(device.data), fs, op, device.data, fs');
    } else {
      assert !Enabled(fs, op);
    }
  }

  method PerformDelete(device: RamDisk, boot: Boot, op: FsOp, ghost fs: Fs) returns (ok: bool, ghost fs': Fs)
    requires Ready(device, boot, op, fs) && (op.UnlinkOp? || op.RmdirOp?)
    modifies device`data
    ensures Mounted(device, boot) && Kept(boot, old(device.data), device.data)
    ensures ok <==> Enabled(fs, op)
    ensures ok ==> DeviceStep(boot, old(device.data), fs, op, device.data, fs')
  {
    hide Fs.Valid, View, RamDisk.Valid, Unlink, Rmdir, Fits, Mirrored, Enabled, Step, Applies, Ready, Found;
    hide FoundSlot, DeviceStep;
    ReadyMeans(device, boot, op, fs);
    DeleteEnabled(fs, op);
    var dir := new Fat32Dir(device, boot, op.dir);
    var r: Result<(), VfsError>;
    if op.UnlinkOp? {
      r := dir.Unlink(op.name);
    } else {
      r := dir.Rmdir(op.name);
    }
    ok := r.Ok?;
    fs' := fs;
    if ok {
      assert Found(fs, op.dir, op.name);
      fs' := Deleted(fs, op, View(boot, device.data));
      assert Step(fs, op, fs');
      IsDeviceStep(boot, old(device.data), fs, op, device.data, fs');
    } else {
      assert !Enabled(fs, op);
    }
  }

  method PerformFileOp(device: RamDisk, boot: Boot, op: FsOp, ghost fs: Fs) returns (ok: bool, ghost fs': Fs)
    requires Ready(device, boot, op, fs) && (op.WriteOp? || op.TruncateOp?)
    modifies device`data
    ensures Mounted(device, boot) && Kept(boot, old(device.data), device.data)
    ensures ok <==> Enabled(fs, op)
    ensures ok ==> DeviceStep(boot, old(device.data), fs, op, device.data, fs')
  {
    hide Fs.Valid, View, RamDisk.Valid, WriteFile, TruncateFile, Fits, Mirrored, Enabled, Step, Applies, Ready;
    hide DeviceStep;
    hide Fs.ChainBytes, Kind, FromBytes, Fs.HasSlot, Fs.Slot, Rechain, Handle.Wf, Fs.HandleAt;
    ReadyMeans(device, boot, op, fs);
    FileOpEnabled(fs, op);
    var file := OpenSlot(device, boot, op, fs);
    if op.WriteOp? {
      var r := file.Write(op.off, op.buf);
      ok := r.Ok?;
    } else {
      var r := file.Truncate(op.size);
      ok := r.Ok?;
    }
    fs' := fs;
    if ok {
      fs' := AfterFileOp(fs, op.dir, op.slot, View(boot, device.data), file.H());
      assert Step(fs, op, fs');
      IsDeviceStep(boot, old(device.data), fs, op, device.data, fs');
    } else {
      assert !Enabled(fs, op);
    }
  }

  // The file object for a slot, with what the slot says.
  method OpenSlot(device: RamDisk, boot: Boot, op: FsOp, ghost fs: Fs) returns (file: Fat32File)
    requires Ready(device, boot, op, fs) && (op.WriteOp? || op.TruncateOp?)
    ensures fresh(file) && file.device == device && file.boot == boot && file.Valid()
    ensures fs.HasSlot(op.dir, op.slot) && file.H() == fs.HandleAt(op.dir, op.slot)
  {
    hide Fs.Valid, View, RamDisk.Valid, Fits, Mirrored, DirBytes, FromBytes, Kind, Fs.ChainBytes;
    RootBase(fs);
    DirBytesAre(fs, op.dir);
    var dir := new Fat32Dir(device, boot, op.dir);
    var all := dir.ReadAllClusterData();
    var slot := SlotOf(all.value, op.slot);
    assert slot == fs.Slot(op.dir, op.slot);
    var entry := FromBytes(slot);
    file := new Fat32File(device, boot, entry.Cluster(), entry.fileSize, op.dir, op.slot * SLOT);
  }
}
