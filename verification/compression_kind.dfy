/**
  The compression schemes a template container file may use. `Unknown` is
  the value the header sniff and the failed decode cascade report.
 */
module CompressionKinds {

  datatype CompressionKind =
    | Plain    // no compression: the UTF-8 bytes of the text
    | GZip     // PHP gzencode
    | ZLib     // PHP gzcompress
    | Deflate  // PHP gzdeflate
    | Unknown  // unidentified
  {
    /** One of the four schemes a file can actually be written with. */
    predicate IsScheme() {
      !Unknown?
    }
  }
}
