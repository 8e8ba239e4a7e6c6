/** The two operations of the semantic-versioning library (resin-semver)
    that the version-scoring pipeline uses. The library itself is foreign:
    it is a parameter of the model, and `Valid` states what the model
    assumes of it. */
module Semver {
  import opened Wrappers

  /** `parse` gives the canonical version string of a parseable input
      (`semver.parse(s).version`) or `None` (`semver.parse(s)` is null);
      `compare` is a JavaScript-style comparator: negative, zero or
      positive. */
  datatype Library = Library(parse: string -> Option<string>, compare: (string, string) -> int)

  /** The characters a canonical semantic-version string is made of. */
  predicate IsVersionChar(c: char) {
    'a' <= c <= 'z' || 'A' <= c <= 'Z' || '0' <= c <= '9' || c == '.' || c == '-' || c == '+'
  }

  predicate IsVersionString(s: string) {
    forall i :: 0 <= i < |s| ==> IsVersionChar(s[i])
  }

  /** Every canonical string `parse` returns is made of version characters
      only; in particular it holds no `%` and no tab. */
  ghost predicate ParsesToVersionStrings(parse: string -> Option<string>) {
    forall s :: parse(s).Some? ==> IsVersionString(parse(s).value)
  }

  /** `compare` is a consistent comparator of a total order: swapping the
      arguments flips the sign, "at most" is transitive, and only equal
      strings compare equal. */
  ghost predicate IsTotalOrder(compare: (string, string) -> int) {
    && (forall x, y :: compare(x, y) < 0 <==> compare(y, x) > 0)
    && (forall x, y, z :: compare(x, y) <= 0 && compare(y, z) <= 0 ==> compare(x, z) <= 0)
    && (forall x, y :: compare(x, y) == 0 ==> x == y)
  }

  ghost predicate Valid(lib: Library) {
    ParsesToVersionStrings(lib.parse) && IsTotalOrder(lib.compare)
  }
}
