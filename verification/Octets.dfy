/** Bytes as numbers, and fields written over a run of bytes. */
module Octets {
  type Byte = b: int | 0 <= b < 256

  /** `data` written over the bytes from `at` on; a longer write extends the run. */
  function Overwrite(file: seq<Byte>, at: nat, data: seq<Byte>): seq<Byte>
    requires at <= |file|
  {
    file[..at] + data + if at + |data| <= |file| then file[at + |data|..] else []
  }

  lemma OverwriteHolds(file: seq<Byte>, at: nat, data: seq<Byte>)
    requires at <= |file|
    ensures Overwrite(file, at, data)[at..at + |data|] == data
  {
  }

  /** A write leaves alone what lies before or behind it. */
  lemma OverwriteKeeps(file: seq<Byte>, at: nat, data: seq<Byte>, a: nat, b: nat)
    requires at + |data| <= |file| && a <= b <= |file| && (b <= at || at + |data| <= a)
    ensures Overwrite(file, at, data)[a..b] == file[a..b]
  {
  }
}
