/**
 * TransactionalFileOps: physical file deletions tied to the outcome of the current database
 * transaction. A registration adds a synchronization to the transaction; when the transaction
 * completes, the synchronizations whose condition matches the outcome delete their files.
 */
module TransactionalFileOps {
  import UnixPaths

  type File = UnixPaths.Path

  /** A mutable collection of files (a java.util.List<File>). A registered callback keeps a
      reference to it and reads its contents only when the transaction completes. */
  class FileList {
    var items: seq<File>

    constructor(items0: seq<File>)
      ensures items == items0
    {
      items := items0;
    }

    method Add(f: File)
      modifies this
      ensures items == old(items) + [f]
    {
      items := items + [f];
    }
  }

  /** `after` is `before` with one after-commit deletion of `files` appended. */
  ghost predicate AddsDeletion(before: seq<Synchronization>, after: seq<Synchronization>, files: seq<File>)
    reads if after != [] && after[|after| - 1].DeleteAfterCommit? then {after[|after| - 1].toDelete} else {}
  {
    |after| == |before| + 1
    && after[..|before|] == before
    && after[|after| - 1].DeleteAfterCommit?
    && after[|after| - 1].toDelete.items == files
  }

  /** The files on disk. */
  class FileSystem {
    var files: set<File>

    constructor(files0: set<File>)
      ensures files == files0
    {
      files := files0;
    }
  }

  /** The two callbacks: delete on rollback (afterCompletion with STATUS_ROLLED_BACK) and delete
      after a successful commit (afterCommit). */
  datatype Synchronization =
    | RollbackCleanup(created: FileList)
    | DeleteAfterCommit(toDelete: FileList)
  {
    function Files(): FileList {
      match this
      case RollbackCleanup(l) => l
      case DeleteAfterCommit(l) => l
    }
  }

  /** TransactionSynchronization.STATUS_COMMITTED, STATUS_ROLLED_BACK and STATUS_UNKNOWN. */
  datatype CompletionStatus = Committed | RolledBack | Unknown

  /** Whether a callback deletes its files when the transaction ends with `status`. */
  predicate Fires(s: Synchronization, status: CompletionStatus) {
    match s
    case RollbackCleanup(_) => status == RolledBack
    case DeleteAfterCommit(_) => status == Committed
  }

  function Lists(syncs: seq<Synchronization>): set<FileList> {
    set i | 0 <= i < |syncs| :: syncs[i].Files()
  }

  /** The files the callbacks in `syncs` try to delete for `status`, read from the lists as they
      are now. */
  function Targets(syncs: seq<Synchronization>, status: CompletionStatus): set<File>
    reads Lists(syncs)
  {
    set i, f | 0 <= i < |syncs| && Fires(syncs[i], status) && f in syncs[i].Files().items :: f
  }

  /** A commit never triggers a rollback cleanup, and a rollback never triggers an after-commit
      deletion; an unknown outcome triggers neither. */
  lemma TargetsByStatus(syncs: seq<Synchronization>, status: CompletionStatus, f: File)
    ensures f in Targets(syncs, status) <==>
      exists i :: 0 <= i < |syncs| && f in syncs[i].Files().items &&
        ((syncs[i].RollbackCleanup? && status == RolledBack) || (syncs[i].DeleteAfterCommit? && status == Committed))
  {
  }

  /** Without any rollback cleanup registered, a rollback deletes nothing. */
  lemma RollbackWithoutCleanupDeletesNothing(syncs: seq<Synchronization>)
    requires forall i :: 0 <= i < |syncs| ==> syncs[i].DeleteAfterCommit?
    ensures Targets(syncs, RolledBack) == {}
  {
  }

  /** The component together with the synchronizations registered on the current transaction. */
  class TransactionalFileOps {
    var registered: seq<Synchronization>

    constructor()
      ensures registered == []
    {
      registered := [];
    }

    /** registerRollbackCleanup: nothing for a null or (at this moment) empty collection. */
    method RegisterRollbackCleanup(createdFiles: FileList?)
      modifies this
      ensures registered ==
        if createdFiles == null || createdFiles.items == [] then old(registered)
        else old(registered) + [RollbackCleanup(createdFiles)]
    {
      if createdFiles == null || createdFiles.items == [] {
        return;
      }
      registered := registered + [RollbackCleanup(createdFiles)];
    }

    /** registerDeleteAfterCommit: nothing for a null or (at this moment) empty collection. */
    method RegisterDeleteAfterCommit(toDelete: FileList?)
      modifies this
      ensures registered ==
        if toDelete == null || toDelete.items == [] then old(registered)
        else old(registered) + [DeleteAfterCommit(toDelete)]
    {
      if toDelete == null || toDelete.items == [] {
        return;
      }
      registered := registered + [DeleteAfterCommit(toDelete)];
    }

    /** The transaction ends with `status`: every callback that fires walks its list as it is now
        and deletes each file that exists. A file in `failing` cannot be deleted; the walk goes on
        past it. Spring runs the afterCommit callbacks before the afterCompletion ones, but one
        status fires only one of the two kinds, so a single pass in registration order deletes
        the same files. */
    method Complete(status: CompletionStatus, fs: FileSystem, failing: set<File>)
      modifies this, fs
      ensures fs.files == old(fs.files) - (old(Targets(registered, status)) - failing)
      ensures registered == []
    {
      var syncs := registered;
      var i := 0;
      while i < |syncs|
        invariant 0 <= i <= |syncs|
        invariant fs.files == old(fs.files) - (Targets(syncs[..i], status) - failing)
      {
        var s := syncs[i];
        if Fires(s, status) {
          DeleteEach(s.Files(), fs, failing);
        }
        assert syncs[..i + 1] == syncs[..i] + [s];
        TargetsStep(syncs[..i], s, status);
        i := i + 1;
      }
      assert syncs[..i] == syncs;
      registered := [];
    }
  }

  lemma TargetsStep(syncs: seq<Synchronization>, s: Synchronization, status: CompletionStatus)
    ensures Targets(syncs + [s], status) ==
      Targets(syncs, status) + (if Fires(s, status) then set f | f in s.Files().items else {})
  {
    var all := syncs + [s];
    forall f | f in Targets(all, status) ensures f in Targets(syncs, status) || (Fires(s, status) && f in s.Files().items) {
      var i :| 0 <= i < |all| && Fires(all[i], status) && f in all[i].Files().items;
      if i < |syncs| {
        assert all[i] == syncs[i];
      }
    }
    forall f | f in Targets(syncs, status) ensures f in Targets(all, status) {
      var i :| 0 <= i < |syncs| && Fires(syncs[i], status) && f in syncs[i].Files().items;
      assert all[i] == syncs[i];
    }
    if Fires(s, status) {
      forall f | f in s.Files().items ensures f in Targets(all, status) {
        assert all[|syncs|] == s;
      }
    }
  }

  /** Deletes each listed file that exists; a file that cannot be deleted is skipped and the walk
      goes on with the rest. */
  method DeleteEach(files: FileList, fs: FileSystem, failing: set<File>)
    modifies fs
    ensures fs.files == old(fs.files) - ((set f | f in files.items) - failing)
  {
    var j := 0;
    while j < |files.items|
      invariant 0 <= j <= |files.items|
      invariant fs.files == old(fs.files) - ((set f | f in files.items[..j]) - failing)
    {
      var f := files.items[j];
      if f in fs.files && f !in failing {
        fs.files := fs.files - {f};
      }
      assert files.items[..j + 1] == files.items[..j] + [f];
      j := j + 1;
    }
    assert files.items[..j] == files.items;
  }
}
