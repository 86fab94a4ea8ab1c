/** The status words that travel over the forkserver pipe. */
module ForkserverWords {

  type Word = bv32

  const FS_OPT_ERROR: Word := 0xf800008f
  const FS_OPT_ENABLED: Word := 0x80000001
  const FS_OPT_MAPSIZE: Word := 0x40000000
  const FS_OPT_SNAPSHOT: Word := 0x20000000
  const FS_OPT_AUTODICT: Word := 0x10000000
  const FS_OPT_SHDMEM_FUZZ: Word := 0x01000000
  const FS_OPT_NEWCMPLOG: Word := 0x02000000
  const FS_OPT_OLD_AFLPP_WORKAROUND: Word := 0x0f000000
  const FS_OPT_MAX_MAPSIZE: Word := (0x00fffffe >> 1) + 1

  function SetMapSize(x: Word): Word {
    if x <= 1 || x > FS_OPT_MAX_MAPSIZE then 0 else (x - 1) << 1
  }

  function GetMapSize(status: Word): Word {
    ((status & 0x00fffffe) >> 1) + 1
  }

  function SetError(error: Word): Word {
    (error & 0x0000ffff) << 8
  }

  function GetError(status: Word): Word {
    (status & 0x00ffff00) >> 8
  }

  predicate Has(status: Word, option: Word) {
    status & option == option
  }

  /** The word __afl_start_forkserver reports. */
  function HelloWord(mapSize: Word, dictionary: bool, sharedMemory: bool): Word {
    var s := if mapSize <= FS_OPT_MAX_MAPSIZE then SetMapSize(mapSize) | FS_OPT_MAPSIZE else 0;
    var s := if dictionary then s | FS_OPT_AUTODICT else s;
    var s := if sharedMemory then s | FS_OPT_SHDMEM_FUZZ else s;
    if s != 0 then s | FS_OPT_ENABLED | FS_OPT_NEWCMPLOG else s
  }

  /** The word __afl_start_snapshots reports. */
  function SnapshotWord(mapSize: Word, dictionary: bool, sharedMemory: bool): Word {
    var s := FS_OPT_ENABLED | FS_OPT_SNAPSHOT | FS_OPT_NEWCMPLOG;
    var s := if sharedMemory then s | FS_OPT_SHDMEM_FUZZ else s;
    var s := if mapSize <= FS_OPT_MAX_MAPSIZE then s | SetMapSize(mapSize) | FS_OPT_MAPSIZE else s;
    if dictionary then s | FS_OPT_AUTODICT else s
  }

  /** send_forkserver_error */
  function ErrorWord(error: Word): Word {
    FS_OPT_ERROR | SetError(error)
  }

  /** The receiver reads back exactly the options that were reported. */
  lemma HelloOptions(mapSize: Word, dictionary: bool, sharedMemory: bool)
    ensures var w := HelloWord(mapSize, dictionary, sharedMemory);
            && (Has(w, FS_OPT_AUTODICT) <==> dictionary)
            && (Has(w, FS_OPT_SHDMEM_FUZZ) <==> sharedMemory)
            && (Has(w, FS_OPT_MAPSIZE) <==> mapSize <= FS_OPT_MAX_MAPSIZE)
            && (Has(w, FS_OPT_ENABLED) <==> mapSize <= FS_OPT_MAX_MAPSIZE || dictionary || sharedMemory)
            && (Has(w, FS_OPT_NEWCMPLOG) <==> mapSize <= FS_OPT_MAX_MAPSIZE || dictionary || sharedMemory)
            && !Has(w, FS_OPT_SNAPSHOT)
  {
    MapSizeBits(mapSize);
  }

  /** Likewise from the snapshot greeting, which is always on. */
  lemma SnapshotOptions(mapSize: Word, dictionary: bool, sharedMemory: bool)
    ensures var w := SnapshotWord(mapSize, dictionary, sharedMemory);
            && (Has(w, FS_OPT_AUTODICT) <==> dictionary)
            && (Has(w, FS_OPT_SHDMEM_FUZZ) <==> sharedMemory)
            && (Has(w, FS_OPT_MAPSIZE) <==> mapSize <= FS_OPT_MAX_MAPSIZE)
            && Has(w, FS_OPT_ENABLED) && Has(w, FS_OPT_NEWCMPLOG) && Has(w, FS_OPT_SNAPSHOT)
  {
    MapSizeBits(mapSize);
  }

  /** The word with which the fuzzer answers a greeting. */
  function ReplyWord(sharedMemory: bool, dictionary: bool): Word {
    FS_OPT_ENABLED | (if sharedMemory then FS_OPT_SHDMEM_FUZZ else 0) | (if dictionary then FS_OPT_AUTODICT else 0)
  }

  /** The option bits stay clear of the size field. */
  lemma HelloSizeField(mapSize: Word, dictionary: bool, sharedMemory: bool)
    requires mapSize <= FS_OPT_MAX_MAPSIZE
    ensures HelloWord(mapSize, dictionary, sharedMemory) & 0x00fffffe == SetMapSize(mapSize)
  {
    MapSizeBits(mapSize);
  }

  lemma SnapshotSizeField(mapSize: Word, dictionary: bool, sharedMemory: bool)
    requires mapSize <= FS_OPT_MAX_MAPSIZE
    ensures SnapshotWord(mapSize, dictionary, sharedMemory) & 0x00fffffe == SetMapSize(mapSize)
  {
    MapSizeBits(mapSize);
  }

  lemma FieldReadsBack(status: Word, mapSize: Word)
    requires mapSize <= FS_OPT_MAX_MAPSIZE && status & 0x00fffffe == SetMapSize(mapSize)
    ensures GetMapSize(status) == if mapSize == 0 then 1 else mapSize
  {
    MapSizeBits(mapSize);
  }

  /** It reads back the map size whenever the word offers one, except that an empty map reads as size 1. */
  lemma HelloMapSize(mapSize: Word, dictionary: bool, sharedMemory: bool)
    requires mapSize <= FS_OPT_MAX_MAPSIZE
    ensures GetMapSize(HelloWord(mapSize, dictionary, sharedMemory)) == if mapSize == 0 then 1 else mapSize
  {
    HelloSizeField(mapSize, dictionary, sharedMemory);
    FieldReadsBack(HelloWord(mapSize, dictionary, sharedMemory), mapSize);
  }

  lemma SnapshotMapSize(mapSize: Word, dictionary: bool, sharedMemory: bool)
    requires mapSize <= FS_OPT_MAX_MAPSIZE
    ensures GetMapSize(SnapshotWord(mapSize, dictionary, sharedMemory)) == if mapSize == 0 then 1 else mapSize
  {
    SnapshotSizeField(mapSize, dictionary, sharedMemory);
    FieldReadsBack(SnapshotWord(mapSize, dictionary, sharedMemory), mapSize);
  }

  /** An error report and a greeting cannot be confused, nor can a greeting trip the old-version workaround. */
  lemma GreetingIsNoError(mapSize: Word, dictionary: bool, sharedMemory: bool)
    ensures !Has(HelloWord(mapSize, dictionary, sharedMemory), FS_OPT_ERROR)
    ensures !Has(SnapshotWord(mapSize, dictionary, sharedMemory), FS_OPT_ERROR)
    ensures !Has(HelloWord(mapSize, dictionary, sharedMemory), FS_OPT_OLD_AFLPP_WORKAROUND)
    ensures !Has(SnapshotWord(mapSize, dictionary, sharedMemory), FS_OPT_OLD_AFLPP_WORKAROUND)
  {
    MapSizeBits(mapSize);
  }

  lemma ErrorRoundTrip(error: Word)
    requires 0 < error <= 0xffff
    ensures Has(ErrorWord(error), FS_OPT_ERROR) && GetError(ErrorWord(error)) == error
  {
  }

  /** The size field stays clear of every option bit. */
  lemma MapSizeBits(x: Word)
    ensures SetMapSize(x) & 0xff000001 == 0
    ensures 1 <= x <= FS_OPT_MAX_MAPSIZE ==> (SetMapSize(x) >> 1) + 1 == x
  {
  }
}
