/** The timestamps a note's file receives after it is written. Python's
    `os.utime(path, (a, m))` sets the access time to `a` and the
    modification time to `m`. Times are whole milliseconds here. */
module Stamps {

  datatype FileTimes = FileTimes(accessed: int, modified: int)

  /** A file on disk: its text and its timestamps. */
  datatype StoredFile = StoredFile(text: string, times: FileTimes)

  /** What `os.utime` sets from its `(atime, mtime)` pair. */
  function Utime(times: (int, int)): FileTimes {
    FileTimes(times.0, times.1)
  }

  /** `set_original_timestamp(path, mtime, ctime)` as written: the pair is
      passed as `(mtime, ctime)`, so the file's modification time becomes
      the note's creation time. */
  function StampAsWritten(mtime: int, ctime: int): FileTimes {
    Utime((mtime, ctime))
  }

  /** The as-written stamp loses the note's modification time whenever the
      note was edited after it was created, and can order two files
      against the order of their notes' edits. */
  lemma StampAsWrittenLosesEdits()
    ensures StampAsWritten(2000, 1000).modified != 2000
    ensures StampAsWritten(2000, 0).modified < StampAsWritten(1000, 500).modified
  {
  }

  /** The stamp the converter evidently intends: the pair in `os.utime`'s
      own order, so the file shows the note's last edit as its
      modification time. */
  function Stamp(mtime: int, ctime: int): (t: FileTimes)
    ensures t.modified == mtime
  {
    Utime((ctime, mtime))
  }

  /** Files stamped this way sort by modification time exactly as their
      notes sort by last edit, whatever their creation times. */
  lemma StampKeepsEditOrder(m1: int, c1: int, m2: int, c2: int)
    ensures Stamp(m1, c1).modified < Stamp(m2, c2).modified <==> m1 < m2
    ensures Stamp(m1, c1).modified == Stamp(m2, c2).modified <==> m1 == m2
  {
  }

  /** The file `write_to_disk` leaves behind as written: the note's text,
      last accessed at its modification time and last modified at its
      creation time. */
  function WrittenAsWritten(text: string, mtime: int, ctime: int): (f: StoredFile)
    ensures f.text == text && f.times.accessed == mtime && f.times.modified == ctime
  {
    StoredFile(text, StampAsWritten(mtime, ctime))
  }

  /** The file `write_to_disk` evidently intends: the note's text, last
      modified at the note's last edit. */
  function Written(text: string, mtime: int, ctime: int): (f: StoredFile)
    ensures f.text == text && f.times.modified == mtime
  {
    StoredFile(text, Stamp(mtime, ctime))
  }
}
