/** What the C string routines the shell relies on (the `while (*str)` loops,
    strnlen, strncmp) see in a buffer: a C string ends at its first NUL
    character. A Dafny sequence stands for the bytes of one buffer; when the
    sequence holds no NUL, its end stands for the end of the buffer. */
module CString {
  import opened Wrappers

  /** The terminator C_NULLCHAR. */
  const NUL: char := '\0'

  predicate NulFree(s: seq<char>)
  {
    forall i :: 0 <= i < |s| ==> s[i] != NUL
  }

  /** A text that holds no NUL: a string literal of the program. */
  type CText = s: seq<char> | NulFree(s)

  /** The characters a C routine reads from `s` before it meets a NUL. */
  function UpToNul(s: seq<char>): seq<char>
  {
    if s == [] || s[0] == NUL then [] else [s[0]] + UpToNul(s[1..])
  }

  /** The string read is a NUL-free prefix of `s`, cut at a NUL unless it
      is all of `s`. */
  lemma {:induction false} UpToNulIsPrefix(s: seq<char>)
    ensures UpToNul(s) <= s && NulFree(UpToNul(s))
    ensures |UpToNul(s)| < |s| ==> s[|UpToNul(s)|] == NUL
  {
    if s != [] && s[0] != NUL {
      UpToNulIsPrefix(s[1..]);
    }
  }

  /** The string a C routine reads from the buffer `buf`, or None when no NUL
      lies inside `buf`, so that the read runs past its end. */
  function CStr(buf: seq<char>): (r: Option<seq<char>>)
    ensures r.Some? <==> !NulFree(buf)
    ensures r.Some? ==> |r.value| < |buf| && r.value == UpToNul(buf)
    ensures r.Some? ==> r.value <= buf && NulFree(r.value) && buf[|r.value|] == NUL
  {
    UpToNulIsPrefix(buf);
    if NulFree(buf) then None else Some(UpToNul(buf))
  }

  /** strnlen(s, n): the length of the C string, but never more than n. */
  function StrnLen(s: seq<char>, n: nat): (r: nat)
    ensures r <= n && r <= |UpToNul(s)|
    ensures r == n || r == |UpToNul(s)|
  {
    var k := |UpToNul(s)|;
    if k < n then k else n
  }

  /** strncmp(a, b, n) == 0: the two C strings agree on their first n characters. */
  predicate StrnEqual(a: seq<char>, b: seq<char>, n: nat)
  {
    var sa, sb := UpToNul(a), UpToNul(b);
    sa[..if |sa| < n then |sa| else n] == sb[..if |sb| < n then |sb| else n]
  }

  /** The prefix of `s` that ends at position i is its C string exactly when
      no NUL comes before i and i is a NUL or the end of `s`. */
  lemma UpToNulAt(s: seq<char>, i: nat)
    requires i <= |s| && NulFree(s[..i])
    requires i == |s| || s[i] == NUL
    ensures UpToNul(s) == s[..i]
  {
    UpToNulIsPrefix(s);
    assert forall k :: 0 <= k < i ==> s[k] == s[..i][k];
  }

  /** A string without NUL reads back whole. */
  lemma UpToNulOfNulFree(s: seq<char>)
    requires NulFree(s)
    ensures UpToNul(s) == s
  {
    UpToNulAt(s, |s|);
  }

  /** Whatever follows a NUL is never read. */
  lemma {:induction false} UpToNulTail(s: seq<char>, z: seq<char>)
    requires z == [] || z[0] == NUL
    ensures UpToNul(s + z) == UpToNul(s)
  {
    if s == [] {
    } else if s[0] == NUL {
    } else {
      assert (s + z)[1..] == s[1..] + z;
      UpToNulTail(s[1..], z);
    }
  }

  /** Comparing a string shorter than the limit n with strncmp is exact
      equality with the other C string. */
  lemma StrnEqualShort(a: seq<char>, b: seq<char>, n: nat)
    requires NulFree(a) && |a| < n
    ensures StrnEqual(a, b, n) <==> UpToNul(b) == a
  {
    UpToNulOfNulFree(a);
  }
}
