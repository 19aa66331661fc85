/** The key lookup: the per-directory scan rules of get, and get itself,
    whose directory loop is never entered. */
module Lookup {
  import opened Base
  import opened Structs
  import opened Directory
  import opened Db

  datatype ScanOutcome = NotFound | InlineValue(value: seq<byte>) | InodeValue(ino: u32)

  /** What get answers: found or not, and the value string afterwards. */
  datatype Answer = Answer(found: bool, value: seq<byte>)

  /** The inner loop of get over one directory, from entry i on: a larger
      key ends the search; a DIR entry whose range reaches the key only
      records its inode and moves on; an equal KEY_VALUE entry answers with
      its value, an equal KEY entry with its inode's data; anything else
      moves on. */
  function Scan(ents: seq<DirEntry>, key: seq<byte>, i: nat): ScanOutcome
    decreases |ents| - i
  {
    if i >= |ents| then NotFound
    else
      var e := ents[i];
      var c := Compare(key, e.key);
      if c < 0 then NotFound
      else if e.dType == DE_DIR && Compare(key, e.keyEnd) <= 0 then Scan(ents, key, i + 1)
      else if e.dType == DE_KEY_VALUE && c == 0 then InlineValue(e.value)
      else if e.dType == DE_KEY && c == 0 then InodeValue(e.inoIdx)
      else Scan(ents, key, i + 1)
  }

  /** An entry the scan moves past without answering. */
  predicate Passes(e: DirEntry, key: seq<byte>) {
    Compare(key, e.key) >= 0
    && (Covers(e, key) || !(Compare(key, e.key) == 0 && (e.dType == DE_KEY_VALUE || e.dType == DE_KEY)))
  }

  /** A KEY or KEY_VALUE entry holding exactly the search key. */
  predicate Holds(e: DirEntry, key: seq<byte>) {
    (e.dType == DE_KEY || e.dType == DE_KEY_VALUE) && e.key == key
  }

  /** An answer always comes from an entry with the search key and the
      matching type: the value of a KEY_VALUE entry, the inode of a KEY
      entry. */
  lemma {:induction false} ScanSound(ents: seq<DirEntry>, key: seq<byte>, i: nat)
    ensures Scan(ents, key, i).InlineValue? ==>
      exists j :: i <= j < |ents| && ents[j].dType == DE_KEY_VALUE && ents[j].key == key
                  && ents[j].value == Scan(ents, key, i).value
    ensures Scan(ents, key, i).InodeValue? ==>
      exists j :: i <= j < |ents| && ents[j].dType == DE_KEY && ents[j].key == key
                  && ents[j].inoIdx == Scan(ents, key, i).ino
    decreases |ents| - i
  {
    if i < |ents| {
      CompareZeroIff(key, ents[i].key);
      ScanSound(ents, key, i + 1);
    }
  }

  /** Entries the scan moves past do not change its answer. */
  lemma {:induction false} ScanSkips(ents: seq<DirEntry>, key: seq<byte>, i: nat, j: nat)
    requires i <= j <= |ents|
    requires forall k :: i <= k < j ==> Passes(ents[k], key)
    ensures Scan(ents, key, i) == Scan(ents, key, j)
    decreases j - i
  {
    if i < j {
      ScanSkips(ents, key, i + 1, j);
    }
  }

  /** The first entry, after entries the scan moves past, whose key is
      larger than the search key ends the search with nothing found. */
  lemma ScanStopsAtLarger(ents: seq<DirEntry>, key: seq<byte>, j: nat)
    requires j < |ents| && Compare(key, ents[j].key) < 0
    requires forall k :: 0 <= k < j ==> Passes(ents[k], key)
    ensures Scan(ents, key, 0) == NotFound
  {
    ScanSkips(ents, key, 0, j);
  }

  /** In a strictly sorted directory every entry before the one holding the
      search key is moved past, so that entry answers. */
  lemma ScanFindsSorted(ents: seq<DirEntry>, key: seq<byte>, j: nat)
    requires StrictlySorted(ents) && j < |ents| && Holds(ents[j], key)
    ensures Scan(ents, key, 0) == if ents[j].dType == DE_KEY_VALUE then InlineValue(ents[j].value)
                                  else InodeValue(ents[j].inoIdx)
  {
    forall k | 0 <= k < j
      ensures Passes(ents[k], key)
    {
      CompareAntisym(ents[k].key, key);
      CompareZeroIff(key, ents[k].key);
    }
    ScanSkips(ents, key, 0, j);
    CompareZeroIff(key, ents[j].key);
  }

  /** For a strictly sorted directory the scan answers exactly when some
      KEY or KEY_VALUE entry holds the search key. */
  lemma ScanSortedIff(ents: seq<DirEntry>, key: seq<byte>)
    requires StrictlySorted(ents)
    ensures Scan(ents, key, 0) != NotFound <==> exists j :: 0 <= j < |ents| && Holds(ents[j], key)
  {
    ScanSound(ents, key, 0);
    if j :| 0 <= j < |ents| && Holds(ents[j], key) {
      ScanFindsSorted(ents, key, j);
    }
  }

  /** The assertion that closes the loop body: an entry of a known type
      that reaches it has a key below the search key, provided DIR entries
      have key <= key_end. */
  lemma OtherwiseGreater(e: DirEntry, key: seq<byte>)
    requires e.dType == DE_DIR || e.dType == DE_KEY || e.dType == DE_KEY_VALUE
    requires e.dType == DE_DIR ==> Compare(e.key, e.keyEnd) <= 0
    requires Compare(key, e.key) >= 0
    requires !(e.dType == DE_DIR && Compare(key, e.keyEnd) <= 0)
    requires !(e.dType == DE_KEY_VALUE && Compare(key, e.key) == 0)
    requires !(e.dType == DE_KEY && Compare(key, e.key) == 0)
    ensures Compare(key, e.key) > 0
  {
    CompareZeroIff(key, e.key);
  }

  /** get's directory loop started with `recurse` as given: read the root
      directory and scan it once. */
  function SearchSpec(key: seq<byte>, dirOf: nat -> seq<DirEntry>, dataOf: nat -> seq<byte>,
                      recurse: bool, valueIn: seq<byte>): Answer
  {
    if !recurse then Answer(false, valueIn)
    else match Scan(dirOf(DBINO_ROOT_DIR), key, 0)
      case NotFound => Answer(false, valueIn)
      case InlineValue(v) => Answer(true, v)
      case InodeValue(ino) => Answer(true, dataOf(ino))
  }

  /** The loop never descends: only the root directory's entries matter,
      whatever a DIR entry's inode holds. */
  lemma SearchReadsOnlyRoot(key: seq<byte>, dirOf1: nat -> seq<DirEntry>, dirOf2: nat -> seq<DirEntry>,
                            dataOf: nat -> seq<byte>, recurse: bool, valueIn: seq<byte>)
    requires dirOf1(DBINO_ROOT_DIR) == dirOf2(DBINO_ROOT_DIR)
    ensures SearchSpec(key, dirOf1, dataOf, recurse, valueIn) == SearchSpec(key, dirOf2, dataOf, recurse, valueIn)
  {
  }

  /** The directory loop of get. Its body always ends in a break, so it
      runs at most once: it is written here as the single pass it is.
      readDir and readInodeData are parameters: a directory's entries by
      inode, and an inode's data. */
  method Search(key: seq<byte>, dirOf: nat -> seq<DirEntry>, dataOf: nat -> seq<byte>,
                recurse0: bool, valueIn: seq<byte>) returns (found: bool, value: seq<byte>)
    ensures Answer(found, value) == SearchSpec(key, dirOf, dataOf, recurse0, valueIn)
  {
    value := valueIn;
    var dirIno: nat := DBINO_ROOT_DIR;
    var recurse := recurse0;
    if recurse {
      var ents := dirOf(dirIno);
      var i := 0;
      while i < |ents|
        invariant i <= |ents|
        invariant Scan(ents, key, 0) == Scan(ents, key, i)
      {
        var ent := ents[i];
        var cmpres := Compare(key, ent.key);
        if cmpres < 0 {
          return false, value;
        } else if ent.dType == DE_DIR && Compare(key, ent.keyEnd) <= 0 {
          recurse := true;
          dirIno := ent.inoIdx;
          i := i + 1;
          continue;
        } else if ent.dType == DE_KEY_VALUE && cmpres == 0 {
          return true, ent.value;
        } else if ent.dType == DE_KEY && cmpres == 0 {
          var buf := dataOf(ent.inoIdx);
          return true, buf;
        }
        i := i + 1;
      }
    }
    found := false;
  }

  /** get(key, valueOut): false when the store is not running; otherwise
      the directory loop, with `recurse` starting false, so never entered:
      get finds nothing and leaves valueOut alone. */
  method Get(db: DB, key: seq<byte>, dirOf: nat -> seq<DirEntry>, dataOf: nat -> seq<byte>,
             valueIn: seq<byte>) returns (found: bool, value: seq<byte>)
    ensures !found && value == valueIn
  {
    if !db.running {
      return false, valueIn;
    }
    found, value := Search(key, dirOf, dataOf, false, valueIn);
  }
}
