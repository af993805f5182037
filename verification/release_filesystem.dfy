/**
 * The release draft's in-memory file store: a static table of 256 file
 * slots, each with a NUL-terminated name of at most 31 characters, a
 * 4096-byte data area, a size and a used flag, plus a count of used slots.
 *
 * A C string argument is an `Option<seq<char>>` (`None` for a null pointer)
 * whose characters stop before the NUL; a name comparison with `strcmp(...)
 * == 0` is sequence equality.
 */
module ReleaseFilesystem {
  import opened Common

  const MAX_FILES: nat := 256
  const MAX_FILENAME_LENGTH: nat := 32
  const MAX_FILE_SIZE: nat := 4096

  /** One slot of the table. */
  datatype File = File(name: seq<char>, data: seq<byte>, size: nat, used: bool)

  /** A slot as static zero-initialisation leaves it. */
  const EmptySlot: File := File([], seq(MAX_FILE_SIZE, _ => 0), 0, false)

  /** The shape every slot keeps: a full data area, a size within it, a name that fits with its NUL. */
  predicate WellFormed(f: File) {
    |f.data| == MAX_FILE_SIZE && f.size <= MAX_FILE_SIZE && |f.name| < MAX_FILENAME_LENGTH && IsCStr(f.name)
  }

  /** Slot `i` is in use and named `name`. */
  predicate Holds(slots: seq<File>, i: nat, name: seq<char>)
    requires i < |slots|
  {
    slots[i].used && slots[i].name == name
  }

  /** No two used slots share a name. */
  predicate UniqueNames(slots: seq<File>) {
    forall i, j | 0 <= i < j < |slots| :: slots[i].used && slots[j].used ==> slots[i].name != slots[j].name
  }

  /** The number of used slots. */
  function UsedCount(slots: seq<File>): nat
  {
    if slots == [] then 0 else UsedCount(slots[..|slots| - 1]) + (if slots[|slots| - 1].used then 1 else 0)
  }

  /** The first slot at or after `from` that is used and named `name`. */
  function FindFrom(slots: seq<File>, name: seq<char>, from: nat): (r: Option<nat>)
    requires from <= |slots|
    ensures r.Some? ==> from <= r.value < |slots| && Holds(slots, r.value, name)
    ensures r.Some? ==> forall j | from <= j < r.value :: !Holds(slots, j, name)
    ensures r.None? ==> forall j | from <= j < |slots| :: !Holds(slots, j, name)
    decreases |slots| - from
  {
    if from == |slots| then None
    else if Holds(slots, from, name) then Some(from)
    else FindFrom(slots, name, from + 1)
  }

  /** The first used slot named `name`, the one every lookup loop stops at. */
  function Find(slots: seq<File>, name: seq<char>): (r: Option<nat>)
    ensures r.Some? ==> r.value < |slots| && Holds(slots, r.value, name)
    ensures r.Some? ==> forall j | 0 <= j < r.value :: !Holds(slots, j, name)
    ensures r.None? ==> forall j | 0 <= j < |slots| :: !Holds(slots, j, name)
  {
    FindFrom(slots, name, 0)
  }

  /** The first slot at or after `from` that is not in use. */
  function FirstUnusedFrom(slots: seq<File>, from: nat): (r: Option<nat>)
    requires from <= |slots|
    ensures r.Some? ==> from <= r.value < |slots| && !slots[r.value].used
    ensures r.Some? ==> forall j | from <= j < r.value :: slots[j].used
    ensures r.None? ==> forall j | from <= j < |slots| :: slots[j].used
    decreases |slots| - from
  {
    if from == |slots| then None
    else if !slots[from].used then Some(from)
    else FirstUnusedFrom(slots, from + 1)
  }

  /** The lowest-index unused slot. */
  function FirstUnused(slots: seq<File>): (r: Option<nat>)
    ensures r.Some? ==> r.value < |slots| && !slots[r.value].used
    ensures r.Some? ==> forall j | 0 <= j < r.value :: slots[j].used
    ensures r.None? ==> forall j | 0 <= j < |slots| :: slots[j].used
  {
    FirstUnusedFrom(slots, 0)
  }

  /** The bytes stored under `name`, if a used slot holds it. */
  function Stored(slots: seq<File>, name: seq<char>): Option<seq<byte>>
    requires forall i | 0 <= i < |slots| :: WellFormed(slots[i])
  {
    match Find(slots, name)
    case None => None
    case Some(i) => assert WellFormed(slots[i]); Some(slots[i].data[..slots[i].size])
  }

  /** Lookups of a name see the same slots when no slot changed whether it holds that name. */
  lemma {:induction false} FindFromSame(a: seq<File>, b: seq<File>, name: seq<char>, from: nat)
    requires |a| == |b| && from <= |a|
    requires forall j | from <= j < |a| :: Holds(a, j, name) == Holds(b, j, name)
    ensures FindFrom(a, name, from) == FindFrom(b, name, from)
    decreases |a| - from
  {
    if from < |a| {
      FindFromSame(a, b, name, from + 1);
    }
  }

  /** Changing one slot leaves what is stored under every name that slot neither held nor holds. */
  lemma StoredElsewhere(a: seq<File>, b: seq<File>, k: nat, name: seq<char>)
    requires |a| == |b| && k < |a|
    requires forall i | 0 <= i < |a| :: WellFormed(a[i]) && WellFormed(b[i])
    requires forall j | 0 <= j < |a| && j != k :: a[j] == b[j]
    requires !Holds(a, k, name) && !Holds(b, k, name)
    ensures Stored(a, name) == Stored(b, name)
  {
    FindFromSame(a, b, name, 0);
  }

  /** Changing only the contents of slot `k` moves no name. */
  lemma StoredSameNames(a: seq<File>, b: seq<File>, k: nat, name: seq<char>)
    requires |a| == |b| && k < |a|
    requires forall i | 0 <= i < |a| :: WellFormed(a[i]) && WellFormed(b[i])
    requires forall j | 0 <= j < |a| && j != k :: a[j] == b[j]
    requires a[k].used == b[k].used && a[k].name == b[k].name
    ensures Find(a, name) == Find(b, name)
  {
    FindFromSame(a, b, name, 0);
  }

  /** Marking an unused slot used adds one to the count of used slots. */
  lemma {:induction false} UsedCountMark(a: seq<File>, b: seq<File>, k: nat)
    requires |a| == |b| && k < |a|
    requires forall j | 0 <= j < |a| && j != k :: a[j].used == b[j].used
    requires !a[k].used && b[k].used
    ensures UsedCount(b) == UsedCount(a) + 1
  {
    var n := |a| - 1;
    if k < n {
      UsedCountMark(a[..n], b[..n], k);
    } else {
      UsedCountSame(a[..n], b[..n]);
    }
  }

  /** Slots with the same used flags count the same. */
  lemma {:induction false} UsedCountSame(a: seq<File>, b: seq<File>)
    requires |a| == |b|
    requires forall j | 0 <= j < |a| :: a[j].used == b[j].used
    ensures UsedCount(a) == UsedCount(b)
  {
    if a != [] {
      UsedCountSame(a[..|a| - 1], b[..|b| - 1]);
    }
  }

  /** A table with no used slot counts zero. */
  lemma {:induction false} UsedCountNone(a: seq<File>)
    requires forall j | 0 <= j < |a| :: !a[j].used
    ensures UsedCount(a) == 0
  {
    if a != [] {
      UsedCountNone(a[..|a| - 1]);
    }
  }

  /** The slot table and the used-slot counter. */
  class FileSystem {
    const files: array<File>
    var numFiles: nat

    /**
     * Every slot well formed, used names unique, and the counter equal to
     * the number of used slots.
     */
    ghost predicate Valid()
      reads this, files
    {
      files.Length == MAX_FILES
      && (forall i | 0 <= i < MAX_FILES :: WellFormed(files[i]))
      && UniqueNames(files[..])
      && numFiles == UsedCount(files[..])
    }

    /** The static table starts zeroed: every slot unused, the counter 0. */
    constructor ()
      ensures Valid() && fresh(files)
      ensures forall i | 0 <= i < MAX_FILES :: !files[i].used
    {
      files := new File[MAX_FILES](_ => EmptySlot);
      numFiles := 0;
      new;
      UsedCountNone(files[..]);
    }

    /** `filesystem_init`: every slot marked unused (names and data stay), the counter 0. */
    method FilesystemInit()
      requires Valid()
      modifies this, files
      ensures Valid() && numFiles == 0
      ensures forall i | 0 <= i < MAX_FILES :: files[i] == old(files[i]).(used := false)
    {
      for i := 0 to MAX_FILES
        invariant forall j | 0 <= j < i :: files[j] == old(files[j]).(used := false)
        invariant forall j | i <= j < MAX_FILES :: files[j] == old(files[j])
      {
        files[i] := files[i].(used := false);
      }
      numFiles := 0;
      UsedCountNone(files[..]);
    }

    /** The lookup loop the operations share: the first used slot named `name`. */
    method FindFile(name: seq<char>) returns (r: Option<nat>)
      requires Valid()
      ensures r == Find(files[..], name)
    {
      for i := 0 to MAX_FILES
        invariant FindFrom(files[..], name, i) == Find(files[..], name)
      {
        if files[i].used && files[i].name == name {
          return Some(i);
        }
      }
      return None;
    }

    /**
     * `create_file`: -1 for a null name, a name of 32 or more characters, a
     * name already in use, or a full table; otherwise the lowest unused slot
     * gets the name and size 0, the counter goes up, and 0 is returned.
     */
    method CreateFile(filename: Option<seq<char>>) returns (r: int)
      requires Valid()
      requires filename.Some? ==> IsCStr(filename.value)
      modifies this, files
      ensures Valid()
      ensures r == 0 <==> (filename.Some? && |filename.value| < MAX_FILENAME_LENGTH
        && Find(old(files[..]), filename.value).None? && FirstUnused(old(files[..])).Some?)
      ensures r != 0 ==> r == -1 && files[..] == old(files[..]) && numFiles == old(numFiles)
      ensures r == 0 ==> numFiles == old(numFiles) + 1
      ensures r == 0 ==> Stored(files[..], filename.value) == Some([])
      ensures r == 0 ==> forall n | n != filename.value :: Stored(files[..], n) == Stored(old(files[..]), n)
    {
      if filename.None? || |filename.value| >= MAX_FILENAME_LENGTH {
        return -1;
      }
      var name := filename.value;
      var existing := FindFile(name);
      if existing.Some? {
        return -1;
      }
      for i := 0 to MAX_FILES
        invariant FirstUnusedFrom(files[..], i) == FirstUnused(files[..])
        invariant files[..] == old(files[..]) && numFiles == old(numFiles)
      {
        if !files[i].used {
          Claim(i, name);
          return 0;
        }
      }
      return -1;
    }

    /** The body of the free-slot branch: slot `k` takes the name, size 0 and the used flag. */
    method Claim(k: nat, name: seq<char>)
      requires Valid() && k < MAX_FILES && !files[k].used
      requires |name| < MAX_FILENAME_LENGTH && IsCStr(name) && Find(files[..], name).None?
      modifies this, files
      ensures Valid()
      ensures files[..] == old(files[..])[k := old(files[k]).(name := name, size := 0, used := true)]
      ensures numFiles == old(numFiles) + 1
      ensures Stored(files[..], name) == Some([])
      ensures forall n | n != name :: Stored(files[..], n) == Stored(old(files[..]), n)
    {
      ghost var before := files[..];
      files[k] := files[k].(name := name, size := 0, used := true);
      numFiles := numFiles + 1;
      UsedCountMark(before, files[..], k);
      assert forall j | 0 <= j < MAX_FILES :: !Holds(before, j, name);
      assert UniqueNames(files[..]) by {
        forall i, j | 0 <= i < j < MAX_FILES && files[i].used && files[j].used
          ensures files[i].name != files[j].name
        {
          if i != k && j != k {
            assert before[i] == files[i] && before[j] == files[j];
          } else if i == k {
            assert !Holds(before, j, name);
          } else {
            assert !Holds(before, i, name);
          }
        }
      }
      forall n | n != name
        ensures Stored(files[..], n) == Stored(before, n)
      {
        StoredElsewhere(before, files[..], k, n);
      }
      assert Find(files[..], name) == Some(k) by {
        forall j | 0 <= j < k
          ensures !Holds(files[..], j, name)
        {
          assert files[j] == before[j] && !Holds(before, j, name);
        }
        assert Holds(files[..], k, name);
        assert FindFrom(files[..], name, k) == Some(k);
        assert FindFrom(files[..], name, 0) == Some(k);
      }
    }

    /** `memcpy` into slot `k`'s data and the new size; nothing else changes. */
    method Store(k: nat, data: seq<byte>, size: nat)
      requires Valid() && k < MAX_FILES && files[k].used
      requires size <= MAX_FILE_SIZE && size <= |data|
      modifies files
      ensures Valid()
      ensures Stored(files[..], files[k].name) == Some(data[..size])
      ensures forall n | n != files[k].name :: Stored(files[..], n) == Stored(old(files[..]), n)
      ensures files[k].name == old(files[k].name)
    {
      ghost var before := files[..];
      files[k] := files[k].(data := data[..size] + files[k].data[size..], size := size);
      UsedCountSame(before, files[..]);
      forall n
        ensures Find(files[..], n) == Find(before, n)
      {
        StoredSameNames(before, files[..], k, n);
      }
      assert Find(files[..], files[k].name) == Some(k) by {
        assert Holds(before, k, files[k].name);
        assert forall j | 0 <= j < MAX_FILES && j != k :: !Holds(before, j, files[k].name);
      }
    }

    /**
     * `write_file`: -1 for a null name or data, or more than 4096 bytes;
     * an existing file gets the new bytes and size; a missing one is created
     * first (-1 if that fails) and then written. Every other file keeps its
     * bytes.
     */
    method WriteFile(filename: Option<seq<char>>, data: Option<seq<byte>>, size: nat) returns (r: int)
      requires Valid()
      requires filename.Some? ==> IsCStr(filename.value)
      requires data.Some? && size <= MAX_FILE_SIZE ==> size <= |data.value|
      modifies this, files
      ensures Valid()
      ensures r == 0 <==> (filename.Some? && data.Some? && size <= MAX_FILE_SIZE
        && (Find(old(files[..]), filename.value).Some?
            || (|filename.value| < MAX_FILENAME_LENGTH && FirstUnused(old(files[..])).Some?)))
      ensures r != 0 ==> r == -1 && files[..] == old(files[..]) && numFiles == old(numFiles)
      ensures r == 0 ==> Stored(files[..], filename.value) == Some(data.value[..size])
      ensures r == 0 ==> forall n | n != filename.value :: Stored(files[..], n) == Stored(old(files[..]), n)
    {
      if filename.None? || data.None? || size > MAX_FILE_SIZE {
        return -1;
      }
      var name := filename.value;
      var found := FindFile(name);
      if found.Some? {
        Store(found.value, data.value, size);
        return 0;
      }
      ghost var before := files[..];
      var created := CreateFile(filename);
      if created != 0 {
        return -1;
      }
      ghost var middle := files[..];
      found := FindFile(name);
      if found.Some? {
        Store(found.value, data.value, size);
        assert forall n | n != name :: Stored(middle, n) == Stored(before, n);
        return 0;
      }
      assert false;
      return -1;
    }

    /**
     * `read_file` (the byte-buffer form): -1 when the name, the buffer or the
     * size pointer is null or no file has the name; otherwise 0 with the
     * stored bytes, whose count is what `*size` receives.
     */
    method ReadFile(filename: Option<seq<char>>, bufferGiven: bool, sizeGiven: bool)
      returns (r: int, bytes: seq<byte>)
      requires Valid()
      ensures r == 0 <==> filename.Some? && bufferGiven && sizeGiven && Stored(files[..], filename.value).Some?
      ensures r != 0 ==> r == -1 && bytes == []
      ensures r == 0 ==> Stored(files[..], filename.value) == Some(bytes)
    {
      if filename.None? || !bufferGiven || !sizeGiven {
        return -1, [];
      }
      var found := FindFile(filename.value);
      if found.Some? {
        var f := files[found.value];
        return 0, f.data[..f.size];
      }
      return -1, [];
    }

    /** `file_exists`: some used slot holds the name; false for a null name. */
    method FileExists(filename: Option<seq<char>>) returns (exists_: bool)
      requires Valid()
      ensures exists_ <==> filename.Some? && exists i | 0 <= i < MAX_FILES :: Holds(files[..], i, filename.value)
    {
      if filename.None? {
        return false;
      }
      var found := FindFile(filename.value);
      return found.Some?;
    }
  }
}
