/** Character classes used by the filename pattern and by the clipboard
    filter, and the small Option datatype the parser returns. */
module Wrappers {

  /** An optional value: `None` is what the parser returns, as Python's
      `None`, when a file name carries no metadata. */
  datatype Option<+T> = None | Some(value: T)
}

module CharClasses {

  /** Regular-expression `\w`. Python matches every Unicode word character;
      this model keeps the ASCII ones: letters, digits and underscore. */
  predicate IsWordChar(c: char) {
    ('a' <= c <= 'z') || ('A' <= c <= 'Z') || ('0' <= c <= '9') || c == '_'
  }

  /** Regular-expression `\d`, restricted to the ASCII digits. */
  predicate IsDigit(c: char) {
    '0' <= c <= '9'
  }

  /** The characters Python's `str.strip()` and `str.split()` treat as
      whitespace (those for which `str.isspace()` holds). */
  predicate IsSpace(c: char) {
    var n := c as int;
    (9 <= n <= 13) || (28 <= n <= 32) || n == 0x85 || n == 0xA0 || n == 0x1680
    || (0x2000 <= n <= 0x200A) || n == 0x2028 || n == 0x2029 || n == 0x202F
    || n == 0x205F || n == 0x3000
  }

  predicate AllSpace(s: string) {
    forall k :: 0 <= k < |s| ==> IsSpace(s[k])
  }

  predicate NoSpace(s: string) {
    forall k :: 0 <= k < |s| ==> !IsSpace(s[k])
  }

  /** A piece `str.split()` can return: non-empty and free of whitespace. */
  predicate IsField(s: string) {
    |s| > 0 && NoSpace(s)
  }
}
