/** What the tape image format fixes for everything that reads it. */
module UefFormat {
  import opened Bytes

  /** "UEF File!" and its NUL. */
  const MAGIC: seq<Byte> := [85, 69, 70, 32, 70, 105, 108, 101, 33, 0]

  /** The magic and two version bytes come before the chunks. */
  const HEADER := 12

  /** The type of a chunk that holds cassette blocks. */
  const CASSETTE_DATA := 0x0100
}
