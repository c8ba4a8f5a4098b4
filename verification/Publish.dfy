/**
 Publication of a packed bundle and its checksum receipt (bundle.py, the publish block of
 `pack_root`), over a directory with hard links in which any chosen steps fail.
 */
module Publish {
  import opened Struct
  import opened Utf8

  /** The names involved; temporary names are unique, so each role has its own. */
  datatype Name = Bundle | Receipt | TempZip | BundleBackup | ReceiptBackup

  /** What a name leads to: a regular file by its inode, or anything else (a link, a directory). */
  datatype Node = Regular(inode: nat) | Special

  datatype Seen = Absent | Holds(data: bytes) | Odd

  /** The steps that can raise, each named after what it does. */
  datatype Step =
    | ReserveBackup(of: Name) | LinkBackup(of: Name) | CopyBackup(of: Name) | DropBackup
    | ReplaceBundle
    | LinkBundle | RemoveTemp | UndoLink
    | MakePlaceholder | FillPlaceholder | RemovePlaceholder
    | Verify | WriteReceipt | SyncReceipt
    | Restore(of: Name) | Clean(of: Name) | CleanTemp

  function BackupOf(n: Name): Name {
    if n == Receipt then ReceiptBackup else BundleBackup
  }

  datatype LinkResult = Linked | Exists | Unsupported

  /** One directory. A step in `faults` raises and, for all but a copy, changes nothing. */
  class Directory {
    const faults: set<Step>
    var names: map<Name, Node>
    var inodes: map<nat, bytes>
    var next: nat

    ghost predicate Valid()
      reads this
    {
      && (forall n :: n in names && names[n].Regular? ==> names[n].inode in inodes)
      && (forall i :: i in inodes ==> i < next)
    }

    function See(n: Name): Seen
      requires Valid()
      reads this
    {
      if n !in names then Absent
      else if names[n].Special? then Odd
      else Holds(inodes[names[n].inode])
    }

    constructor (faults: set<Step>)
      ensures Valid() && this.faults == faults && names == map[]
    {
      this.faults := faults;
      names, inodes, next := map[], map[], 0;
    }

    /** Creates a new file under a name, which must be free. */
    method Create(n: Name, data: bytes, step: Step) returns (ok: bool)
      requires Valid()
      modifies this
      ensures Valid()
      ensures ok <==> n !in old(names) && step !in faults
      ensures !ok ==> names == old(names) && inodes == old(inodes)
      ensures ok ==> names == old(names)[n := Regular(old(next))] && inodes == old(inodes)[old(next) := data]
    {
      if n in names || step in faults {
        return false;
      }
      names := names[n := Regular(next)];
      inodes := inodes[next := data];
      next := next + 1;
      return true;
    }

    method Link(src: Name, dst: Name, step: Step) returns (r: LinkResult)
      requires Valid() && src in names
      modifies this
      ensures Valid() && inodes == old(inodes)
      ensures r == if step in faults then Unsupported else if dst in old(names) then Exists else Linked
      ensures names == if r == Linked then old(names)[dst := old(names)[src]] else old(names)
    {
      if step in faults {
        return Unsupported;
      }
      if dst in names {
        return Exists;
      }
      names := names[dst := names[src]];
      return Linked;
    }

    /** A failed copy may leave a partial file behind. */
    method Copy(src: Name, dst: Name, step: Step) returns (ok: bool)
      requires Valid() && src in names && names[src].Regular?
      modifies this
      ensures Valid()
      ensures ok <==> step !in faults
      ensures names == old(names)[dst := Regular(old(next))]
      ensures inodes == old(inodes)[old(next) := if ok then old(inodes[names[src].inode]) else []]
    {
      ok := step !in faults;
      inodes := inodes[next := if ok then inodes[names[src].inode] else []];
      names := names[dst := Regular(next)];
      next := next + 1;
    }

    /** `os.replace`: POSIX does nothing when both names are links to one file. */
    method Replace(src: Name, dst: Name, step: Step) returns (ok: bool)
      requires Valid() && src in names && src != dst
      modifies this
      ensures Valid() && inodes == old(inodes)
      ensures ok <==> step !in faults
      ensures names ==
        if !ok || (dst in old(names) && old(names)[dst] == old(names)[src]) then old(names)
        else (old(names) - {src})[dst := old(names)[src]]
    {
      ok := step !in faults;
      if ok && !(dst in names && names[dst] == names[src]) {
        names := (names - {src})[dst := names[src]];
      }
    }

    /** `unlink(missing_ok=True)`. */
    method Unlink(n: Name, step: Step) returns (ok: bool)
      requires Valid()
      modifies this
      ensures Valid() && inodes == old(inodes)
      ensures ok <==> step !in faults
      ensures names == if ok then old(names) - {n} else old(names)
    {
      ok := step !in faults;
      if ok {
        names := names - {n};
      }
    }

    /** Everything that can be seen under the published names. */
    function Pair(): (Seen, Seen)
      requires Valid()
      reads this
    {
      (See(Bundle), See(Receipt))
    }

    /** Other names may come and go, but these keep both their files and the files' content. */
    twostate predicate Keeps(kept: set<Name>)
      requires old(Valid()) && Valid()
      reads this
    {
      forall n :: n in kept ==>
        && (n in names <==> n in old(names))
        && (n in names ==> names[n] == old(names)[n])
        && See(n) == old(See(n))
    }

    /** `_backup_existing_regular_file`. */
    method Backup(n: Name) returns (ok: bool, backup: Option<Name>)
      requires Valid() && n in {Bundle, Receipt} && BackupOf(n) !in names
      modifies this
      ensures Valid()
      ensures Keeps({Bundle, Receipt, TempZip, BundleBackup, ReceiptBackup} - {BackupOf(n)})
      ensures ok <==> CanBackUp(old(See(n)), n)
      ensures ok ==> backup == if n in old(names) then Some(BackupOf(n)) else None
      ensures ok && n in old(names) ==> See(BackupOf(n)) == old(See(n))
      ensures ok && n !in old(names) ==> BackupOf(n) !in names
    {
      if n !in names {
        return true, None;
      }
      if names[n].Special? {
        return false, None;
      }
      if ReserveBackup(n) in faults {
        return false, None;
      }
      var link := Link(n, BackupOf(n), LinkBackup(n));
      if link == Linked {
        return true, Some(BackupOf(n));
      }
      ok := Copy(n, BackupOf(n), CopyBackup(n));
      return ok, if ok then Some(BackupOf(n)) else None;
    }

    /** A path can be backed up when it is free, or a regular file that can be linked or copied. */
    predicate CanBackUp(seen: Seen, n: Name) {
      seen == Absent ||
      (seen.Holds? && ReserveBackup(n) !in faults && (LinkBackup(n) !in faults || CopyBackup(n) !in faults))
    }

    /** Without hard links: reserve the name exclusively, then replace the reservation. */
    method PublishByPlaceholder() returns (ok: bool)
      requires Valid() && TempZip in names && names[TempZip].Regular?
      modifies this
      ensures Valid()
      ensures Keeps({Receipt, BundleBackup, ReceiptBackup})
      ensures ok <==> Bundle !in old(names) && MakePlaceholder !in faults && FillPlaceholder !in faults
      ensures ok ==> See(Bundle) == old(See(TempZip)) && TempZip !in names
      ensures !ok && RemovePlaceholder !in faults ==> Keeps({Bundle})
      ensures Bundle in old(names) ==> Keeps({Bundle})
    {
      ok := Create(Bundle, [], MakePlaceholder);
      if !ok {
        return false;
      }
      assert names[TempZip] != names[Bundle];
      ok := Replace(TempZip, Bundle, FillPlaceholder);
      if !ok {
        var _ := Unlink(Bundle, RemovePlaceholder);
        assert RemovePlaceholder !in faults ==> names == old(names);
      }
    }

    /** `_publish_without_overwrite`. */
    method PublishWithoutOverwrite() returns (ok: bool)
      requires Valid() && TempZip in names && names[TempZip].Regular?
      modifies this
      ensures Valid()
      ensures Keeps({Receipt, BundleBackup, ReceiptBackup})
      ensures ok <==> Bundle !in old(names) && MovesAside()
      ensures ok ==> See(Bundle) == old(See(TempZip)) && TempZip !in names
      ensures !ok && UndoSound() ==> Keeps({Bundle})
      ensures Bundle in old(names) ==> Keeps({Bundle})
    {
      var link := Link(TempZip, Bundle, LinkBundle);
      if link == Exists {
        return false;
      }
      if link == Unsupported {
        ok := PublishByPlaceholder();
        return;
      }
      ok := Unlink(TempZip, RemoveTemp);
      if !ok {
        var _ := Unlink(Bundle, UndoLink);
      }
    }

    predicate MovesAside() {
      if LinkBundle in faults then MakePlaceholder !in faults && FillPlaceholder !in faults
      else RemoveTemp !in faults
    }

    predicate UndoSound() {
      RemovePlaceholder !in faults && UndoLink !in faults
    }

    /** `_restore_or_remove`. */
    method RestoreOrRemove(n: Name, backup: Option<Name>) returns (ok: bool)
      requires Valid() && n in {Bundle, Receipt}
      requires backup.Some? ==> backup.value == BackupOf(n) && BackupOf(n) in names
      modifies this
      ensures Valid()
      ensures ok <==> Restore(n) !in faults
      ensures Keeps({Bundle, Receipt, TempZip, BundleBackup, ReceiptBackup} - {n, BackupOf(n)})
      ensures ok ==> See(n) == if backup.Some? then old(See(BackupOf(n))) else Absent
      ensures !ok ==> names == old(names) && inodes == old(inodes)
    {
      if backup.Some? {
        ok := Replace(backup.value, n, Restore(n));
      } else {
        ok := Unlink(n, Restore(n));
      }
    }

    /** `secure_write_text`: a complete new file takes the name, and syncing it may still fail. */
    method WriteReceiptFile(text: bytes) returns (ok: bool)
      requires Valid()
      modifies this
      ensures Valid()
      ensures ok <==> WriteReceipt !in faults && SyncReceipt !in faults
      ensures Keeps({Bundle, TempZip, BundleBackup, ReceiptBackup})
      ensures WriteReceipt in faults ==> Keeps({Receipt})
      ensures WriteReceipt !in faults ==> See(Receipt) == Holds(text)
    {
      if WriteReceipt in faults {
        return false;
      }
      names := names[Receipt := Regular(next)];
      inodes := inodes[next := text];
      next := next + 1;
      return SyncReceipt !in faults;
    }
  }

  /** What another publisher puts in place after the existence check of an unforced run. */
  datatype Race = Race(bundle: Option<bytes>, receipt: Option<bytes>)

  datatype Result = Published(sha256: bytes) | Raised

  /** How the digest of a bundle and the text of its receipt are made. */
  datatype Digest = Digest(hash: bytes -> bytes, receipt: bytes -> bytes)

  /** The existing outputs are out of the way: absent, or, under force, backed up. */
  predicate Ready(d: Directory, force: bool)
    requires d.Valid()
    reads d
  {
    if force then d.CanBackUp(d.See(Bundle), Bundle) && d.CanBackUp(d.See(Receipt), Receipt)
    else Bundle !in d.names && Receipt !in d.names
  }

  /** The new bundle takes its place. */
  predicate Starts(d: Directory, force: bool, race: Race)
    requires d.Valid()
    reads d
  {
    Ready(d, force) && if force then ReplaceBundle !in d.faults else race.bundle.None? && d.MovesAside()
  }

  /** Nothing fails up to and including the receipt. */
  predicate Commits(d: Directory, force: bool, race: Race)
    requires d.Valid()
    reads d
  {
    Starts(d, force, race) && Verify !in d.faults && WriteReceipt !in d.faults && SyncReceipt !in d.faults
  }

  /** The backups that were made can be removed again. */
  predicate Cleans(d: Directory, force: bool)
    reads d
  {
    force ==> (Bundle in d.names ==> Clean(Bundle) !in d.faults) && (Receipt in d.names ==> Clean(Receipt) !in d.faults)
  }

  /** Undoing an unfinished publication does not itself fail. */
  predicate RollbackSound(d: Directory) {
    Restore(Bundle) !in d.faults && Restore(Receipt) !in d.faults && d.UndoSound()
  }

  /** The bundle can be restored, but the receipt cannot. */
  predicate OnlyReceiptStays(d: Directory) {
    Restore(Bundle) !in d.faults && Restore(Receipt) in d.faults
  }

  function Raced(seen: Seen, put: Option<bytes>): Seen {
    if put.Some? then Holds(put.value) else seen
  }

  method Intrude(d: Directory, n: Name, put: Option<bytes>)
    requires d.Valid() && n !in d.names
    modifies d
    ensures d.Valid() && d.Keeps({Bundle, Receipt, TempZip, BundleBackup, ReceiptBackup} - {n})
    ensures d.See(n) == Raced(Absent, put)
  {
    if put.Some? {
      d.names := d.names[n := Regular(d.next)];
      d.inodes := d.inodes[d.next := put.value];
      d.next := d.next + 1;
    }
  }

  /** The `finally` clause: whatever backups are still known are removed. */
  method CleanBackups(d: Directory, bundle: Option<Name>, receipt: Option<Name>) returns (ok: bool)
    requires d.Valid()
    requires bundle.Some? ==> bundle.value == BundleBackup
    requires receipt.Some? ==> receipt.value == ReceiptBackup
    modifies d
    ensures d.Valid() && d.Keeps({Bundle, Receipt, TempZip})
    ensures ok <==> (bundle.Some? ==> Clean(Bundle) !in d.faults) && (receipt.Some? ==> Clean(Receipt) !in d.faults)
    ensures bundle.Some? && Clean(Bundle) !in d.faults ==> BundleBackup !in d.names
    ensures ok && receipt.Some? ==> ReceiptBackup !in d.names
  {
    ok := true;
    if bundle.Some? {
      ok := d.Unlink(bundle.value, Clean(Bundle));
    }
    if ok && receipt.Some? {
      ok := d.Unlink(receipt.value, Clean(Receipt));
    }
  }

  /** Both paths as they were, whatever was put there meanwhile. */
  method BackUpBoth(d: Directory) returns (ok: bool, bundle: Option<Name>, receipt: Option<Name>)
    requires d.Valid() && BundleBackup !in d.names && ReceiptBackup !in d.names
    modifies d
    ensures d.Valid() && d.Keeps({Bundle, Receipt, TempZip})
    ensures ok <==> old(Ready(d, true))
    ensures !ok ==> bundle == None && receipt == None
    ensures ok ==> bundle == if Bundle in old(d.names) then Some(BundleBackup) else None
    ensures ok ==> receipt == if Receipt in old(d.names) then Some(ReceiptBackup) else None
    ensures ok && bundle.Some? ==> d.See(BundleBackup) == old(d.See(Bundle))
    ensures ok && receipt.Some? ==> d.See(ReceiptBackup) == old(d.See(Receipt))
  {
    ok, bundle := d.Backup(Bundle);
    if !ok {
      return false, None, None;
    }
    ok, receipt := d.Backup(Receipt);
    if !ok {
      if bundle.Some? {
        var _ := d.Unlink(BundleBackup, DropBackup);
      }
      return false, None, None;
    }
  }

  /** Puts the verified bundle's receipt beside it; `None` when a step raised. */
  method Finish(d: Directory, digest: Digest) returns (sha: Option<bytes>)
    requires d.Valid() && d.See(Bundle).Holds?
    modifies d
    ensures d.Valid() && d.Keeps({Bundle, TempZip, BundleBackup, ReceiptBackup})
    ensures sha.Some? <==> Verify !in d.faults && WriteReceipt !in d.faults && SyncReceipt !in d.faults
    ensures sha.Some? ==>
      sha.value == digest.hash(d.See(Bundle).data) && d.See(Receipt) == Holds(digest.receipt(sha.value))
    ensures Verify in d.faults || WriteReceipt in d.faults ==> d.Keeps({Receipt})
    ensures Verify !in d.faults && WriteReceipt !in d.faults ==>
      d.See(Receipt) == Holds(digest.receipt(digest.hash(d.See(Bundle).data)))
  {
    if Verify in d.faults {
      return None;
    }
    var hash := digest.hash(d.See(Bundle).data);
    var ok := d.WriteReceiptFile(digest.receipt(hash));
    return if ok then Some(hash) else None;
  }

  /** The `except` clause after publication has started; a failed restore leaves the backups to `finally`. */
  method Rollback(d: Directory, bundle: Option<Name>, receipt: Option<Name>)
    requires d.Valid()
    requires bundle.Some? ==> bundle.value == BundleBackup && BundleBackup in d.names
    requires receipt.Some? ==> receipt.value == ReceiptBackup && ReceiptBackup in d.names
    modifies d
    ensures d.Valid() && d.Keeps({TempZip})
    ensures RollbackSound(d) ==>
      && d.See(Bundle) == (if bundle.Some? then old(d.See(BundleBackup)) else Absent)
      && d.See(Receipt) == (if receipt.Some? then old(d.See(ReceiptBackup)) else Absent)
    ensures Restore(Bundle) in d.faults ==>
      d.Keeps({Bundle}) && (bundle.Some? && Clean(Bundle) !in d.faults ==> BundleBackup !in d.names)
    ensures Restore(Bundle) !in d.faults && Restore(Receipt) in d.faults ==>
      && d.See(Bundle) == (if bundle.Some? then old(d.See(BundleBackup)) else Absent)
      && d.Keeps({Receipt})
      && (receipt.Some? && (bundle.Some? ==> Clean(Bundle) !in d.faults) && Clean(Receipt) !in d.faults ==>
            ReceiptBackup !in d.names)
  {
    var ok := d.RestoreOrRemove(Bundle, bundle);
    if ok {
      ok := d.RestoreOrRemove(Receipt, receipt);
    }
    if !ok {
      var _ := CleanBackups(d, bundle, receipt);
    }
  }

  method TakePlace(d: Directory) returns (ok: bool)
    requires d.Valid() && d.See(TempZip).Holds? && (Bundle in d.names ==> d.names[Bundle] != d.names[TempZip])
    modifies d
    ensures d.Valid() && d.Keeps({Receipt, BundleBackup, ReceiptBackup})
    ensures ok <==> ReplaceBundle !in d.faults
    ensures if ok then d.See(Bundle) == old(d.See(TempZip)) else d.Keeps({Bundle})
  {
    ok := d.Replace(TempZip, Bundle, ReplaceBundle);
  }

  /** Nothing was published: the backups and the temporary bundle go. */
  method Discard(d: Directory, bundle: Option<Name>, receipt: Option<Name>)
    requires d.Valid()
    requires bundle.Some? ==> bundle.value == BundleBackup
    requires receipt.Some? ==> receipt.value == ReceiptBackup
    modifies d
    ensures d.Valid() && d.Keeps({Bundle, Receipt})
  {
    var _ := CleanBackups(d, bundle, receipt);
    var _ := d.Unlink(TempZip, CleanTemp);
  }

  /** Under force: back both up, then replace the bundle. */
  method PlaceForced(d: Directory) returns (ok: bool, bundle: Option<Name>, receipt: Option<Name>)
    requires d.Valid() && d.See(TempZip).Holds?
    requires forall n :: n in d.names && n != TempZip ==> d.names[n] != d.names[TempZip]
    requires BundleBackup !in d.names && ReceiptBackup !in d.names
    modifies d
    ensures d.Valid() && d.Keeps({Receipt})
    ensures ok <==> old(Ready(d, true)) && ReplaceBundle !in d.faults
    ensures !ok ==> d.Keeps({Bundle})
    ensures ok ==>
      && d.See(Bundle) == old(d.See(TempZip))
      && bundle == (if Bundle in old(d.names) then Some(BundleBackup) else None)
      && receipt == (if Receipt in old(d.names) then Some(ReceiptBackup) else None)
      && (bundle.Some? ==> d.See(BundleBackup) == old(d.See(Bundle)))
      && (receipt.Some? ==> d.See(ReceiptBackup) == old(d.See(Receipt)))
  {
    ok, bundle, receipt := BackUpBoth(d);
    if ok {
      assert Bundle in d.names ==> d.names[Bundle] != d.names[TempZip];
      ok := TakePlace(d);
    }
    if !ok {
      Discard(d, bundle, receipt);
    }
  }

  /** Without force: check both, and publish without ever replacing what another publisher created. */
  method PlaceUnforced(d: Directory, race: Race) returns (ok: bool)
    requires d.Valid() && d.See(TempZip).Holds?
    modifies d
    ensures d.Valid()
    ensures ok <==> old(Starts(d, false, race))
    ensures !old(Ready(d, false)) ==> d.Keeps({Bundle, Receipt})
    ensures old(Ready(d, false)) ==> d.See(Receipt) == Raced(Absent, race.receipt)
    ensures old(Ready(d, false)) && !ok && (race.bundle.Some? || d.UndoSound()) ==>
      d.See(Bundle) == Raced(Absent, race.bundle)
    ensures ok ==> d.See(Bundle) == old(d.See(TempZip))
  {
    if Bundle in d.names || Receipt in d.names {
      var _ := d.Unlink(TempZip, CleanTemp);
      return false;
    }
    Intrude(d, Bundle, race.bundle);
    Intrude(d, Receipt, race.receipt);
    ok := d.PublishWithoutOverwrite();
    if !ok {
      var _ := d.Unlink(TempZip, CleanTemp);
    }
  }

  /**
   The publish block. Whether the new pair is in place is decided by `Commits` alone; if it is not
   and the rollback is sound, both names are as they were. Two more things the code does are
   spelled out: a failure to remove a backup raises although the new pair stands, and a failed
   restore is followed by removal of the only backup, of the bundle or of the receipt beside a
   bundle that was restored.
   */
  method PublishPair(d: Directory, force: bool, race: Race, digest: Digest) returns (result: Result)
    requires d.Valid() && d.See(TempZip).Holds?
    requires forall n :: n in d.names && n != TempZip ==> d.names[n] != d.names[TempZip]
    requires BundleBackup !in d.names && ReceiptBackup !in d.names
    modifies d
    ensures d.Valid()
    ensures var zip := old(d.See(TempZip)).data;
      && (result.Published? <==> old(Commits(d, force, race) && Cleans(d, force)))
      && (result.Published? ==> result.sha256 == digest.hash(zip))
      && (old(Commits(d, force, race)) ==> d.Pair() == (Holds(zip), Holds(digest.receipt(digest.hash(zip)))))
    ensures force && !old(Commits(d, force, race)) && RollbackSound(d) ==> d.Pair() == old(d.Pair())
    ensures !force && !old(Ready(d, false)) ==> d.Pair() == old(d.Pair())
    ensures !force && old(Ready(d, false)) && !old(Commits(d, false, race)) && RollbackSound(d) ==>
      d.Pair() == (
        Raced(Absent, race.bundle),
        if old(Starts(d, false, race)) then Absent else Raced(Absent, race.receipt))
    ensures !force && old(Ready(d, false)) && race.bundle.Some? ==> d.See(Bundle) == Holds(race.bundle.value)
    ensures force && old(Starts(d, true, race)) && !old(Commits(d, true, race)) && Restore(Bundle) in d.faults ==>
      && d.See(Bundle) == old(d.See(TempZip))
      && (Bundle in old(d.names) && Clean(Bundle) !in d.faults ==> BundleBackup !in d.names)
    ensures force && old(Starts(d, true, race)) && !old(Commits(d, true, race)) && OnlyReceiptStays(d) ==>
      && d.See(Bundle) == old(d.See(Bundle))
      && d.See(Receipt) == (
           if Verify in d.faults || WriteReceipt in d.faults then old(d.See(Receipt))
           else Holds(digest.receipt(digest.hash(old(d.See(TempZip)).data))))
      && (Receipt in old(d.names) && old(Cleans(d, true)) ==> ReceiptBackup !in d.names)
  {
    var bundle: Option<Name>, receipt: Option<Name> := None, None;
    var ok: bool;
    if force {
      ok, bundle, receipt := PlaceForced(d);
    } else {
      ok := PlaceUnforced(d, race);
    }
    if !ok {
      return Raised;
    }
    var sha := Finish(d, digest);
    if sha.None? {
      Rollback(d, bundle, receipt);
      return Raised;
    }
    ok := CleanBackups(d, bundle, receipt);
    return if ok then Published(sha.value) else Raised;
  }

  /**
   "Raised means rolled back" fails for one step: removing the old bundle's backup after the new
   pair is complete. Here that is the only fault, and the caller sees an error beside a new pair.
   */
  method CleanupFailureRaisesAfterPublishing(earlier: bytes, zip: bytes, digest: Digest)
    returns (d: Directory, result: Result)
    ensures d.Valid() && result == Raised
    ensures d.Pair() == (Holds(zip), Holds(digest.receipt(digest.hash(zip))))
  {
    d := new Directory({Clean(Bundle)});
    var _ := d.Create(Bundle, earlier, ReplaceBundle);
    var _ := d.Create(TempZip, zip, ReplaceBundle);
    assert Commits(d, true, Race(None, None)) && !Cleans(d, true);
    result := PublishPair(d, true, Race(None, None), digest);
  }

  /** A failed restore costs the earlier bundle: `finally` removes the backup that still held it. */
  method FailedRestoreLosesTheBackup(earlier: bytes, zip: bytes, digest: Digest)
    returns (d: Directory, result: Result)
    ensures d.Valid() && result == Raised
    ensures d.See(Bundle) == Holds(zip) && BundleBackup !in d.names
  {
    d := new Directory({Verify, Restore(Bundle)});
    var _ := d.Create(Bundle, earlier, ReplaceBundle);
    var _ := d.Create(TempZip, zip, ReplaceBundle);
    assert Starts(d, true, Race(None, None)) && !Commits(d, true, Race(None, None));
    result := PublishPair(d, true, Race(None, None), digest);
  }

  /** An earlier pair, and a new bundle about to replace it. */
  method EarlierPair(faults: set<Step>, earlier: bytes, receipt: bytes, zip: bytes) returns (d: Directory)
    requires ReplaceBundle !in faults
    ensures fresh(d) && d.Valid() && d.faults == faults
    ensures d.See(Bundle) == Holds(earlier) && d.See(Receipt) == Holds(receipt) && d.See(TempZip) == Holds(zip)
    ensures d.names.Keys == {Bundle, Receipt, TempZip}
    ensures forall n :: n in d.names && n != TempZip ==> d.names[n] != d.names[TempZip]
  {
    d := new Directory(faults);
    var _ := d.Create(Bundle, earlier, ReplaceBundle);
    var _ := d.Create(Receipt, receipt, ReplaceBundle);
    var _ := d.Create(TempZip, zip, ReplaceBundle);
  }

  /** A failed restore of the receipt alone leaves the earlier bundle beside the new receipt. */
  method FailedReceiptRestoreMixesThePair(earlier: bytes, receipt: bytes, zip: bytes, digest: Digest)
    returns (d: Directory, result: Result)
    ensures d.Valid() && result == Raised
    ensures d.Pair() == (Holds(earlier), Holds(digest.receipt(digest.hash(zip)))) && ReceiptBackup !in d.names
  {
    d := EarlierPair({SyncReceipt, Restore(Receipt)}, earlier, receipt, zip);
    assert Starts(d, true, Race(None, None)) && !Commits(d, true, Race(None, None)) && Cleans(d, true);
    result := PublishPair(d, true, Race(None, None), digest);
  }
}
