/** Which bytes the character sets of base/escape.cc contain, for every byte, against their comments. */
module EscapeCharmaps {
  import opened Basics
  import opened EscapeUrl

  predicate Alphanumeric(c: Byte) {
    0x30 <= c <= 0x39 || 0x41 <= c <= 0x5A || 0x61 <= c <= 0x7A
  }

  /** Control characters, space, DEL and everything above. */
  predicate Unprintable(c: Byte) {
    c <= 0x20 || c >= 0x7F
  }

  /** !'()*-._~ */
  const UNRESERVED_MARKS: set<int> := {0x21, 0x27, 0x28, 0x29, 0x2A, 0x2D, 0x2E, 0x5F, 0x7E}

  /** ;/?:@&=+$, and the #[] that external handlers keep */
  const RESERVED: set<int> := {0x3B, 0x2F, 0x3F, 0x3A, 0x40, 0x26, 0x3D, 0x2B, 0x24, 0x2C, 0x23, 0x5B, 0x5D}

  /** "#%:<>?[\]^`{|} */
  const PATH_SPECIAL: set<int> := {0x22, 0x23, 0x25, 0x3A, 0x3C, 0x3E, 0x3F, 0x5B, 0x5C, 0x5D, 0x5E, 0x60, 0x7B,
                                   0x7C, 0x7D}

  /** ?>=<;+'&%$#"![\]^`{|} */
  const URL_SPECIAL: set<int> := {0x3F, 0x3E, 0x3D, 0x3C, 0x3B, 0x2B, 0x27, 0x26, 0x25, 0x24, 0x23, 0x22, 0x21,
                                  0x5B, 0x5C, 0x5D, 0x5E, 0x60, 0x7B, 0x7C, 0x7D}

  /** kQueryCharmap: everything except alphanumerics and the unreserved marks. */
  lemma QueryContents(c: Byte)
    ensures QUERY_CHARMAP.Contains(c) <==> !(Alphanumeric(c) || c in UNRESERVED_MARKS)
  {
  }

  /** kPathCharmap: the unprintable bytes and those listed. */
  lemma PathContents(c: Byte)
    ensures PATH_CHARMAP.Contains(c) <==> Unprintable(c) || c in PATH_SPECIAL
  {
  }

  /** kUrlEscape: the comment lists '!', which is not in the set, and leaves out '@', which is; the rest agrees. */
  lemma UrlContents(c: Byte)
    ensures URL_ESCAPE.Contains(c) <==> ((Unprintable(c) || c in URL_SPECIAL) && c != 0x21) || c == 0x40
  {
  }

  /** kNonASCIICharmap: everything above 7 bits. */
  lemma NonAsciiContents(c: Byte)
    ensures NON_ASCII_CHARMAP.Contains(c) <==> c >= 0x80
  {
  }

  /** kExternalHandlerCharmap: everything except alphanumerics, reserved characters and unreserved marks. */
  lemma ExternalContents(c: Byte)
    ensures EXTERNAL_HANDLER_CHARMAP.Contains(c) <==> !(Alphanumeric(c) || c in RESERVED || c in UNRESERVED_MARKS)
  {
  }
}
