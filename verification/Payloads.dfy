/**
 Sparse test files and the guard that watches them: what is written where, what a copy must
 not lose, and from which size on a copy that wrote the holes out is noticed.
 */
module Payloads {
  import opened Text

  const BLOCK := 0x10000    // dd's bs=64k
  const MIB := 0x100000

  /** A 64 KiB block of a file: never written, or written by the k-th dd. */
  datatype Block = Hole | Written(k: nat)

  /** truncate -s to n blocks, of a file that was not there. */
  function Truncated(n: nat): seq<Block> {
    seq(n, _ => Hole)
  }

  /** dd of one block with seek and notrunc: past the end, the file grows. */
  function Dd(file: seq<Block>, seek: nat, k: nat): seq<Block> {
    if seek < |file| then file[seek := Written(k)]
    else file + Truncated(seek - |file|) + [Written(k)]
  }

  /** The sparse pattern of fill_command. */
  function SparseFile(sizeMb: nat): seq<Block>
    requires sizeMb >= 1
  {
    Dd(Dd(Dd(Truncated(sizeMb * 16), 0, 1), sizeMb * 8, 2), sizeMb * 16 - 1, 3)
  }

  function BlocksWritten(file: seq<Block>): nat {
    if file == [] then 0
    else BlocksWritten(file[..|file| - 1]) + if file[|file| - 1].Written? then 1 else 0
  }

  lemma {:induction false} NothingWritten(n: nat)
    ensures BlocksWritten(Truncated(n)) == 0
  {
    if n > 0 {
      NothingWritten(n - 1);
      assert Truncated(n)[..n - 1] == Truncated(n - 1);
    }
  }

  /** A write into a hole inside the file adds one block and moves no end. */
  lemma {:induction false} DdFillsHole(file: seq<Block>, seek: nat, k: nat)
    requires seek < |file| && file[seek].Hole?
    ensures BlocksWritten(Dd(file, seek, k)) == BlocksWritten(file) + 1
  {
    var n := |file| - 1;
    var after := Dd(file, seek, k);
    if seek == n {
      assert after[..n] == file[..n];
    } else {
      DdFillsHole(file[..n], seek, k);
      assert after[..n] == Dd(file[..n], seek, k);
    }
  }

  lemma ThreeWrites(n: nat, a: nat, b: nat, c: nat)
    requires a < b < c < n
    ensures var f := Dd(Dd(Dd(Truncated(n), a, 1), b, 2), c, 3);
            |f| == n && f[a] == Written(1) && f[b] == Written(2) && f[c] == Written(3) && BlocksWritten(f) == 3
  {
    var f1 := Dd(Truncated(n), a, 1);
    var f2 := Dd(f1, b, 2);
    NothingWritten(n);
    DdFillsHole(Truncated(n), a, 1);
    DdFillsHole(f1, b, 2);
    DdFillsHole(f2, c, 3);
  }

  /** The three writes are at three places inside the file, which keeps its length. */
  lemma SparseLayout(sizeMb: nat)
    requires sizeMb >= 1
    ensures var f := SparseFile(sizeMb);
            && |f| * BLOCK == sizeMb * MIB
            && f[0] == Written(1) && f[sizeMb * 8] == Written(2) && f[|f| - 1] == Written(3)
            && BlocksWritten(f) * BLOCK == 192 * 1024
  {
    ThreeWrites(sizeMb * 16, 0, sizeMb * 8, sizeMb * 16 - 1);
  }

  // ----- the guard

  datatype Seeded = Seeded(md5: string, apparent: nat, taken: nat)

  function GuardPath(base: string, i: nat): string {
    base + "-" + (Decimal(i) + ".dat")
  }

  lemma GuardPathInjective(base: string, i: nat, j: nat)
    requires GuardPath(base, i) == GuardPath(base, j)
    ensures i == j
  {
    assert Decimal(i) + ".dat" == GuardPath(base, i)[|base| + 1..] == Decimal(j) + ".dat";
    assert Decimal(i) == (Decimal(i) + ".dat")[..|Decimal(i) + ".dat"| - 4] == Decimal(j);
    DecimalInjective(i, j);
  }

  /** max(int(taken * 1.5), 1 MiB). */
  function Budget(taken: nat): nat {
    if taken * 3 / 2 > MIB then taken * 3 / 2 else MIB
  }

  /** A dictionary with the first files of a seeding entered. */
  function With<V>(m: map<string, V>, base: string, count: nat, value: nat -> V): map<string, V> {
    if count == 0 then m else With(m, base, count - 1, value)[GuardPath(base, count - 1) := value(count - 1)]
  }

  /** Every file has an entry of its own, and what an earlier seeding recorded elsewhere stays. */
  lemma {:induction false} EachFileIsRecorded<V>(m: map<string, V>, base: string, count: nat, value: nat -> V, path: string)
    ensures forall i | 0 <= i < count && path == GuardPath(base, i) ::
      path in With(m, base, count, value) && With(m, base, count, value)[path] == value(i)
    ensures (forall i | 0 <= i < count :: path != GuardPath(base, i)) ==>
      && (path in With(m, base, count, value) <==> path in m)
      && (path in m ==> With(m, base, count, value)[path] == m[path])
  {
    if count > 0 {
      EachFileIsRecorded(m, base, count - 1, value, path);
      forall i | 0 <= i < count - 1 && path == GuardPath(base, i) ensures path != GuardPath(base, count - 1) {
        if path == GuardPath(base, count - 1) {
          GuardPathInjective(base, i, count - 1);
        }
      }
    }
  }

  /** So comparing with what was recorded compares every file seeded, and nothing else. */
  lemma {:induction false} GuardSeesEachFile<V>(base: string, count: nat, value: nat -> V, now: string -> V)
    ensures (forall p | p in With(map[], base, count, value) :: now(p) == With(map[], base, count, value)[p]) <==>
            forall i | 0 <= i < count :: now(GuardPath(base, i)) == value(i)
  {
    var recorded := With(map[], base, count, value);
    forall i | 0 <= i < count ensures GuardPath(base, i) in recorded && recorded[GuardPath(base, i)] == value(i) {
      EachFileIsRecorded(map[], base, count, value, GuardPath(base, i));
    }
    forall p | p in recorded ensures exists i | 0 <= i < count :: p == GuardPath(base, i) {
      EachFileIsRecorded(map[], base, count, value, p);
    }
  }

  class DataGuard {
    var checksums: map<string, string>
    var occupancy: map<string, (nat, nat)>
    var sparse: bool

    ghost predicate Valid()
      reads this
    {
      checksums.Keys == occupancy.Keys
    }

    constructor ()
      ensures Valid() && checksums == map[] && !sparse
    {
      checksums, occupancy, sparse := map[], map[], false;
    }

    /** `file(i)` is what the guest says of the i-th file right after writing it. */
    method Seed(base: string, count: nat, sparse: bool, file: nat -> Seeded)
      requires Valid()
      modifies this
      ensures Valid() && this.sparse == sparse
      ensures checksums == With(old(checksums), base, count, i => file(i).md5)
      ensures occupancy == With(old(occupancy), base, count, i => (file(i).apparent, file(i).taken))
    {
      this.sparse := sparse;
      for i := 0 to count
        invariant Valid() && this.sparse == sparse
        invariant checksums == With(old(checksums), base, i, i => file(i).md5)
        invariant occupancy == With(old(occupancy), base, i, i => (file(i).apparent, file(i).taken))
      {
        checksums := checksums[GuardPath(base, i) := file(i).md5];
        occupancy := occupancy[GuardPath(base, i) := (file(i).apparent, file(i).taken)];
      }
    }

    /** Every file still has the sum it was seeded with. */
    method Verify(md5: string -> string) returns (ok: bool)
      ensures ok <==> forall p | p in checksums :: md5(p) == checksums[p]
    {
      var left := checksums.Keys;
      while left != {}
        invariant left <= checksums.Keys
        invariant forall p | p in checksums && p !in left :: md5(p) == checksums[p]
        decreases left
      {
        var p :| p in left;
        if md5(p) != checksums[p] {
          return false;
        }
        left := left - {p};
      }
      return true;
    }

    /** No sparse file takes up more than its budget. */
    method VerifySparse(taken: string -> nat) returns (ok: bool)
      ensures ok <==> !sparse || forall p | p in occupancy :: taken(p) <= Budget(occupancy[p].1)
    {
      if !sparse {
        return true;
      }
      var left := occupancy.Keys;
      while left != {}
        invariant left <= occupancy.Keys
        invariant forall p | p in occupancy && p !in left :: taken(p) <= Budget(occupancy[p].1)
        decreases left
      {
        var p :| p in left;
        if taken(p) > Budget(occupancy[p].1) {
          return false;
        }
        left := left - {p};
      }
      return true;
    }
  }

  /** A copy that takes up a file's whole size is noticed exactly when this holds. */
  lemma InflationShows(size: nat, before: nat)
    ensures size > Budget(before) <==> size > MIB && 3 * before < 2 * size
  {
  }

  /** So of the files fill_command makes, those of two MiB and more are guarded, and one of one MiB is not. */
  lemma SeededFilesAreGuarded(sizeMb: nat)
    requires sizeMb >= 1
    ensures |SparseFile(sizeMb)| * BLOCK > Budget(BlocksWritten(SparseFile(sizeMb)) * BLOCK) <==> sizeMb >= 2
  {
    SparseLayout(sizeMb);
    InflationShows(sizeMb * MIB, 192 * 1024);
  }
}
