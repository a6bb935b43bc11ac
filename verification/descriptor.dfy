/**
 Frame descriptors of the BadgerDB buffer manager.

 One descriptor exists per frame of the buffer pool. It records whether the
 frame holds a page (`valid`), the clock's second-chance flag (`refbit`),
 whether the cached copy differs from disk (`dirty`), how many callers hold
 the page (`pinCnt`) and which page of which file the frame caches.
 */
module Descriptor {

  /** Unsigned 32-bit values: the width of the buffer count and the clock hand. */
  type Uint32 = x: nat | x < 0x1_0000_0000

  /** Identity of an open page file. */
  type FileId = nat

  /** Page number inside a file. */
  type PageId = nat

  /** Index of a frame in the pool. */
  type FrameId = nat

  datatype Option<T> = None | Some(value: T)

  /** The page-table key: a page of a file. */
  datatype Key = Key(file: FileId, page: PageId)

  datatype Desc = Desc(
    valid: bool,
    refbit: bool,
    dirty: bool,
    pinCnt: nat,
    owner: Option<Key>)

  /** The descriptor of an empty frame: invalid, unpinned, clean, unreferenced. */
  const Cleared := Desc(false, false, false, 0, None)

  /** The descriptor of a frame that has just been loaded with `key` for one caller. */
  function Set(key: Key): Desc
  {
    Desc(true, true, false, 1, Some(key))
  }
}
