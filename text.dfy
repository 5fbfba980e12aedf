/** Optional values, used for "no match" results of the scanners. */
module Wrappers {
  datatype Option<+T> = None | Some(value: T)
}

/**
 * Character classes of the ECMAScript regular-expression grammar as
 * libstdc++'s std::regex applies them to `char` under the classic locale,
 * and the two std::string queries the extractor relies on.
 */
module Text {
  import opened Wrappers

  /** `\s`: the characters for which isspace holds in the "C" locale. */
  predicate IsSpace(c: char) {
    c == ' ' || c == '\t' || c == '\n' || c == '\U{0B}' || c == '\U{0C}' || c == '\r'
  }

  /** `[a-zA-Z_]` */
  predicate IsIdentStart(c: char) {
    ('a' <= c <= 'z') || ('A' <= c <= 'Z') || c == '_'
  }

  /** `\w`: alphanumerics and the underscore. */
  predicate IsWordChar(c: char) {
    IsIdentStart(c) || ('0' <= c <= '9')
  }

  /** The characters `.` refuses to match on a `char` sequence. */
  predicate IsLineBreak(c: char) {
    c == '\n' || c == '\r'
  }

  ghost predicate OccursAt(s: string, needle: string, k: nat) {
    k + |needle| <= |s| && s[k..k + |needle|] == needle
  }

  ghost predicate Contains(s: string, needle: string) {
    exists k: nat :: OccursAt(s, needle, k)
  }

  ghost predicate StartsWith(s: string, prefix: string) {
    |prefix| <= |s| && s[..|prefix|] == prefix
  }

  /**
   * std::string::find(needle, from): the leftmost occurrence of `needle`
   * at or after `from`, None standing for npos.
   */
  function Find(s: string, needle: string, from: nat): (r: Option<nat>)
    decreases |s| - from
    ensures r.Some? ==> from <= r.value && OccursAt(s, needle, r.value)
    ensures r.Some? ==> forall k: nat :: from <= k < r.value ==> !OccursAt(s, needle, k)
    ensures r.None? ==> forall k: nat :: from <= k ==> !OccursAt(s, needle, k)
  {
    if from + |needle| > |s| then None
    else if s[from..from + |needle|] == needle then Some(from)
    else Find(s, needle, from + 1)
  }

  /** `s.find(needle) != npos` holds exactly when `needle` is a substring of `s`. */
  function Includes(s: string, needle: string): (b: bool)
    ensures b <==> Contains(s, needle)
  {
    Find(s, needle, 0).Some?
  }

  /** `s.find(prefix) == 0` holds exactly when `s` starts with `prefix`. */
  function FoundAtStart(s: string, prefix: string): (b: bool)
    ensures b <==> StartsWith(s, prefix)
  {
    Find(s, prefix, 0) == Some(0)
  }
}
