/**
 * The character classes used by the account patterns, and the one scanning
 * primitive the recognisers are built from. Letters and digits are ASCII only,
 * as in a Java regular expression class such as [A-Za-z0-9].
 */
module CharClasses {

  datatype Class =
    | Letter      // [A-Za-z]
    | Word        // [A-Za-z0-9_]
    | EmailLocal  // [A-Za-z0-9._-]
    | EmailLabel  // [A-Za-z0-9_-]
    | HostLabel   // [A-Za-z0-9-]
    | HostTail    // [A-Za-z0-9_.]

  predicate IsAsciiLetter(c: char) {
    'A' <= c <= 'Z' || 'a' <= c <= 'z'
  }

  predicate IsAsciiDigit(c: char) {
    '0' <= c <= '9'
  }

  predicate In(k: Class, c: char) {
    match k
    case Letter => IsAsciiLetter(c)
    case Word => IsAsciiLetter(c) || IsAsciiDigit(c) || c == '_'
    case EmailLocal => IsAsciiLetter(c) || IsAsciiDigit(c) || c == '.' || c == '_' || c == '-'
    case EmailLabel => IsAsciiLetter(c) || IsAsciiDigit(c) || c == '_' || c == '-'
    case HostLabel => IsAsciiLetter(c) || IsAsciiDigit(c) || c == '-'
    case HostTail => IsAsciiLetter(c) || IsAsciiDigit(c) || c == '_' || c == '.'
  }

  /** Every character of s belongs to k. */
  predicate AllIn(s: string, k: Class) {
    forall i :: 0 <= i < |s| ==> In(k, s[i])
  }

  /** Length of the longest prefix of s drawn from k: the greedy run a regex class repetition consumes. */
  function Span(s: string, k: Class): (n: nat)
    ensures n <= |s|
    ensures forall i :: 0 <= i < n ==> In(k, s[i])
    ensures n < |s| ==> !In(k, s[n])
  {
    if |s| == 0 || !In(k, s[0]) then 0 else 1 + Span(s[1..], k)
  }

  /** A prefix of class characters that ends at the end of s or at a non-class character is the span. */
  lemma SpanIs(s: string, k: Class, n: nat)
    requires n <= |s|
    requires forall i :: 0 <= i < n ==> In(k, s[i])
    requires n < |s| ==> !In(k, s[n])
    ensures Span(s, k) == n
  {
  }

  /** The span covers s exactly when s lies wholly in k. */
  lemma SpanCoversAll(s: string, k: Class)
    ensures Span(s, k) == |s| <==> AllIn(s, k)
  {
    if AllIn(s, k) {
      SpanIs(s, k, |s|);
    }
  }

  /** AllIn of a prefix is the same as class membership of its indices. */
  lemma AllInPrefix(s: string, k: Class, n: nat)
    requires n <= |s|
    ensures AllIn(s[..n], k) <==> forall i :: 0 <= i < n ==> In(k, s[i])
  {
    if forall i :: 0 <= i < n ==> In(k, s[i]) {
      forall i | 0 <= i < n
        ensures In(k, s[..n][i])
      {
        assert s[..n][i] == s[i];
      }
    }
    if AllIn(s[..n], k) {
      forall i | 0 <= i < n
        ensures In(k, s[i])
      {
        assert s[..n][i] == s[i];
      }
    }
  }

}
