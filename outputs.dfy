/**
 * vcstool's CompareOutput: the facts that the compare command collects for one
 * repository, and the normalisation that turns a detached-HEAD description
 * into the literal "HEAD detached" plus the revision it was detached at.
 */
module Outputs {
  import opened Wrappers
  import opened DetachedHead

  /** The value of every field of a CompareOutput at one moment. */
  datatype Fields = Fields(
    localVersion: string,
    remoteVersion: string,
    tag: string,
    localHash: string,
    remoteHash: string,
    remote: string,
    ahead: int,
    behind: int,
    unstagedChanges: bool,
    stagedChanges: bool,
    untrackedFiles: bool,
    stashes: bool)

  /**
   * The record after `fix_detached_head`. Only the local version and hash may
   * differ from `f`, and the local version it leaves never matches the pattern.
   */
  function FixedDetachedHead(f: Fields): (f': Fields)
    ensures f'.(localVersion := f.localVersion, localHash := f.localHash) == f
    ensures DetachedMatch(f'.localVersion) == None
  {
    DetachedNeverMatches();
    match DetachedMatch(f.localVersion)
    case Some(rev) => f.(localVersion := Detached, localHash := rev)
    case None => f
  }

  /**
   * The normalisation against the regular expression's meaning: when the local
   * version has a capture, the version becomes "HEAD detached" and the hash the
   * longest capture; when it has none, nothing changes.
   */
  lemma FixedDetachedHeadSpec(f: Fields, g: string)
    ensures LongestCapture(f.localVersion, g) ==>
      FixedDetachedHead(f) == f.(localVersion := Detached, localHash := g)
    ensures (forall g' :: !Captures(f.localVersion, g')) ==> FixedDetachedHead(f) == f
  {
    DetachedMatchIsLongestCapture(f.localVersion, g);
  }

  /**
   * On a match the new hash is a revision token: non-empty, with no whitespace,
   * and it stood right after the prefix in the old local version.
   */
  lemma FixedHashShape(f: Fields)
    requires DetachedMatch(f.localVersion).Some?
    ensures FixedDetachedHead(f).localVersion == Detached
    ensures |FixedDetachedHead(f).localHash| >= 1 && NoSpace(FixedDetachedHead(f).localHash)
    ensures Prefix + FixedDetachedHead(f).localHash + ")" <= f.localVersion
  {
  }

  /** Normalising twice is the same as normalising once. */
  lemma FixedDetachedHeadIdempotent(f: Fields)
    ensures FixedDetachedHead(FixedDetachedHead(f)) == FixedDetachedHead(f)
  {
  }

  /** The per-repository result of the compare command, normalised in place. */
  class CompareOutput {
    var localVersion: string
    var remoteVersion: string
    var tag: string
    var localHash: string
    var remoteHash: string
    var remote: string
    var ahead: int
    var behind: int
    var unstagedChanges: bool
    var stagedChanges: bool
    var untrackedFiles: bool
    var stashes: bool

    /** The current value of every field. */
    function Snapshot(): (f: Fields)
      reads this
    {
      Fields(localVersion, remoteVersion, tag, localHash, remoteHash, remote,
             ahead, behind, unstagedChanges, stagedChanges, untrackedFiles, stashes)
    }

    /** The dataclass constructor: one argument per field, in declaration order. */
    constructor (localVersion: string, remoteVersion: string, tag: string,
                 localHash: string, remoteHash: string, remote: string,
                 ahead: int, behind: int, unstagedChanges: bool,
                 stagedChanges: bool, untrackedFiles: bool, stashes: bool)
      ensures Snapshot() == Fields(localVersion, remoteVersion, tag, localHash,
                                   remoteHash, remote, ahead, behind, unstagedChanges,
                                   stagedChanges, untrackedFiles, stashes)
    {
      this.localVersion := localVersion;
      this.remoteVersion := remoteVersion;
      this.tag := tag;
      this.localHash := localHash;
      this.remoteHash := remoteHash;
      this.remote := remote;
      this.ahead := ahead;
      this.behind := behind;
      this.unstagedChanges := unstagedChanges;
      this.stagedChanges := stagedChanges;
      this.untrackedFiles := untrackedFiles;
      this.stashes := stashes;
    }

    /**
     * `fix_detached_head`: if the local version reads "(HEAD detached at X)",
     * set it to "HEAD detached" and the local hash to X. Only those two fields
     * can be written.
     */
    method FixDetachedHead()
      modifies this`localVersion, this`localHash
      ensures Snapshot() == FixedDetachedHead(old(Snapshot()))
      ensures match DetachedMatch(old(localVersion))
        case Some(rev) => localVersion == Detached && localHash == rev
        case None => localVersion == old(localVersion) && localHash == old(localHash)
      ensures DetachedMatch(localVersion) == None
    {
      var m := DetachedMatch(localVersion);
      if m.Some? {
        localVersion := Detached;
        localHash := m.value;
      }
    }
  }

  /**
   * A second normalisation of the same object changes nothing: after the
   * first, the local version no longer matches.
   */
  method SecondFixIsNoOp(o: CompareOutput)
    modifies o
    ensures o.Snapshot() == FixedDetachedHead(old(o.Snapshot()))
  {
    o.FixDetachedHead();
    ghost var once := o.Snapshot();
    o.FixDetachedHead();
    assert o.Snapshot() == once;
  }
}
