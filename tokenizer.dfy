/** How _gshell_process splits a completed line (gshell.c:128-142): strtok
    with the delimiters " \n", called until it finds no more tokens or until
    G_MAX_ARGS tokens are held. There is no quote handling. */
module Tokenizer {
  import opened Wrappers
  import opened CString
  import opened GshellH

  /** The delimiter set " \n" handed to strtok. */
  predicate IsDelim(c: char)
  {
    c == WhiteSpace || c == NewLine
  }

  /** A character that can belong to a token: neither a delimiter nor the terminator. */
  predicate IsWordChar(c: char)
  {
    c != NUL && !IsDelim(c)
  }

  /** A token: a non-empty run of word characters. */
  predicate IsWord(w: seq<char>)
  {
    w != [] && forall j :: 0 <= j < |w| ==> IsWordChar(w[j])
  }

  /** The length of the run of word characters that starts `s`. */
  function WordLen(s: seq<char>): (n: nat)
    ensures n <= |s|
  {
    if s == [] || !IsWordChar(s[0]) then 0 else 1 + WordLen(s[1..])
  }

  /** The word length is the length of the run: every character before it
      is a word character and the one at it, if any, is not. */
  lemma {:induction false} WordLenRun(s: seq<char>)
    ensures forall i :: 0 <= i < WordLen(s) ==> IsWordChar(s[i])
    ensures WordLen(s) < |s| ==> !IsWordChar(s[WordLen(s)])
  {
    if s != [] && IsWordChar(s[0]) {
      WordLenRun(s[1..]);
      assert forall i :: 1 <= i < WordLen(s) ==> s[i] == s[1..][i - 1];
    }
  }

  /** The tokens of the C string held in `s`, left to right: the maximal runs
      of word characters before the first NUL. */
  function Tokens(s: seq<char>): seq<seq<char>>
    decreases |s|
  {
    if s == [] || s[0] == NUL then []
    else if IsDelim(s[0]) then Tokens(s[1..])
    else
      var n := WordLen(s);
      [s[..n]] + Tokens(s[n..])
  }

  /** The first n elements of s, or all of them when there are fewer. */
  function Take<T>(s: seq<T>, n: nat): (r: seq<T>)
    ensures |r| == (if |s| <= n then |s| else n) && r <= s
  {
    if |s| <= n then s else s[..n]
  }

  /** A run of word characters is found again as the word length of any
      extension that does not continue it. */
  lemma {:induction false} WordLenAppend(a: seq<char>, t: seq<char>)
    requires WordLen(a) < |a| || t == [] || !IsWordChar(t[0])
    ensures WordLen(a + t) == WordLen(a)
  {
    if a != [] && IsWordChar(a[0]) {
      assert (a + t)[1..] == a[1..] + t;
      WordLenAppend(a[1..], t);
    }
  }

  /** The word length is the first position that does not continue the run. */
  lemma {:induction false} WordLenIs(s: seq<char>, n: nat)
    requires n <= |s| && forall i :: 0 <= i < n ==> IsWordChar(s[i])
    requires n == |s| || !IsWordChar(s[n])
    ensures WordLen(s) == n
  {
    if n > 0 {
      assert forall i :: 0 <= i < n - 1 ==> s[1..][i] == s[i + 1];
      WordLenIs(s[1..], n - 1);
    }
  }

  /** A leading delimiter is skipped. */
  lemma SkipDelim(s: seq<char>)
    requires s != [] && IsDelim(s[0])
    ensures Tokens(s) == Tokens(s[1..])
  {
  }

  /** A leading run of n word characters is the first token. */
  lemma FirstToken(s: seq<char>, n: nat)
    requires 0 < n <= |s| && forall i :: 0 <= i < n ==> IsWordChar(s[i])
    requires n == |s| || !IsWordChar(s[n])
    ensures Tokens(s) == [s[..n]] + Tokens(s[n..])
  {
    WordLenIs(s, n);
  }

  /** A NUL ends the string: nothing after it yields tokens. */
  lemma {:induction false} TokensNulTail(s: seq<char>, z: seq<char>)
    requires z == [] || z[0] == NUL
    ensures Tokens(s + z) == Tokens(s)
    decreases |s|
  {
    if s == [] || s[0] == NUL {
    } else if IsDelim(s[0]) {
      assert (s + z)[1..] == s[1..] + z;
      TokensNulTail(s[1..], z);
    } else {
      var n := WordLen(s);
      WordLenAppend(s, z);
      assert (s + z)[..n] == s[..n];
      assert (s + z)[n..] == s[n..] + z;
      TokensNulTail(s[n..], z);
    }
  }

  /** A delimiter splits the line: the tokens on either side, in order. */
  lemma {:induction false} TokensSplitAtDelim(a: seq<char>, d: char, b: seq<char>)
    requires NulFree(a) && IsDelim(d)
    ensures Tokens(a + [d] + b) == Tokens(a) + Tokens(b)
    decreases |a|
  {
    var s := a + [d] + b;
    if a == [] {
      assert s[1..] == b;
    } else if IsDelim(a[0]) {
      assert s[1..] == a[1..] + [d] + b;
      TokensSplitAtDelim(a[1..], d, b);
    } else {
      var n := WordLen(a);
      WordLenAppend(a, [d] + b);
      assert a + ([d] + b) == s;
      assert s[..n] == a[..n];
      assert s[n..] == a[n..] + [d] + b;
      TokensSplitAtDelim(a[n..], d, b);
    }
  }

  /** A single word is a single token. */
  lemma TokensOfWord(w: seq<char>)
    requires IsWord(w)
    ensures Tokens(w) == [w]
  {
    WordLenIs(w, |w|);
    assert w[..|w|] == w && w[|w|..] == [];
  }

  /** A line made of delimiters only has no tokens. */
  lemma {:induction false} TokensOfBlank(s: seq<char>)
    requires forall i :: 0 <= i < |s| ==> IsDelim(s[i])
    ensures Tokens(s) == []
  {
    if s != [] {
      TokensOfBlank(s[1..]);
    }
  }

  /** The buffer ends inside a token: its last character is a word character. */
  predicate EndsInWord(s: seq<char>)
  {
    s != [] && IsWordChar(s[|s| - 1])
  }

  /** There is a last token in `ts`, and `s` ends with it. */
  predicate LastRunsToEnd(ts: seq<seq<char>>, s: seq<char>)
  {
    ts != [] && |ts[|ts| - 1]| <= |s| && s[|s| - |ts[|ts| - 1]|..] == ts[|ts| - 1]
  }

  /** A leading delimiter keeps the last token at the end. */
  lemma LastPastDelim(s: seq<char>)
    requires s != [] && IsDelim(s[0]) && LastRunsToEnd(Tokens(s[1..]), s[1..])
    ensures LastRunsToEnd(Tokens(s), s)
  {
    SkipDelim(s);
    var t := Tokens(s[1..])[|Tokens(s[1..])| - 1];
    assert s[1..][|s| - 1 - |t|..] == s[|s| - |t|..];
  }

  /** A leading token keeps a later last token at the end. */
  lemma LastPastWord(s: seq<char>, n: nat)
    requires n <= |s| && Tokens(s) == [s[..n]] + Tokens(s[n..])
    requires LastRunsToEnd(Tokens(s[n..]), s[n..])
    ensures LastRunsToEnd(Tokens(s), s)
  {
    var t := Tokens(s[n..])[|Tokens(s[n..])| - 1];
    assert Tokens(s)[|Tokens(s)| - 1] == t;
    assert s[n..][|s| - n - |t|..] == s[|s| - |t|..];
  }

  /** A text that is one run of word characters is its own last token. */
  lemma WholeWord(s: seq<char>)
    requires s != [] && Tokens(s) == [s[..|s|]] + Tokens(s[|s|..])
    ensures LastRunsToEnd(Tokens(s), s)
  {
    assert s[|s|..] == [] && s[..|s|] == s;
  }

  /** A NUL-free text ending inside a token holds that token: its last
      token runs up to its end. */
  lemma {:induction false} EndsInWordHasToken(s: seq<char>)
    requires NulFree(s) && EndsInWord(s)
    ensures Tokens(s) != [] && LastRunsToEnd(Tokens(s), s)
    decreases |s|
  {
    if IsDelim(s[0]) {
      var r := s[1..];
      assert r[|r| - 1] == s[|s| - 1];
      EndsInWordHasToken(r);
      LastPastDelim(s);
    } else {
      var n := WordLen(s);
      WordLenRun(s);
      FirstToken(s, n);
      if n == |s| {
        WholeWord(s);
      } else {
        var r := s[n..];
        assert r[|r| - 1] == s[|s| - 1];
        EndsInWordHasToken(r);
        LastPastWord(s, n);
      }
    }
  }

  /** Every token of a text that does not end inside a token is shorter
      than the text. */
  lemma {:induction false} TokensShorter(s: seq<char>)
    requires !EndsInWord(s)
    ensures forall i :: 0 <= i < |Tokens(s)| ==> |Tokens(s)[i]| < |s|
    decreases |s|
  {
    if s == [] || s[0] == NUL {
    } else if IsDelim(s[0]) {
      assert s[1..] != [] ==> s[1..][|s| - 2] == s[|s| - 1];
      TokensShorter(s[1..]);
    } else {
      var n := WordLen(s);
      WordLenRun(s);
      assert n < |s|;
      assert s[n..][|s| - n - 1] == s[|s| - 1];
      TokensShorter(s[n..]);
      assert Tokens(s) == [s[..n]] + Tokens(s[n..]);
    }
  }

  /** The line a user types to pass the words `ws`: the words separated by
      single blanks. */
  function Unsplit(ws: seq<seq<char>>): seq<char>
  {
    if ws == [] then [] else if |ws| == 1 then ws[0] else ws[0] + [WhiteSpace] + Unsplit(ws[1..])
  }

  /** Splitting the line typed for some words gives those words back. */
  lemma {:induction false} TokensOfUnsplit(ws: seq<seq<char>>)
    requires forall i :: 0 <= i < |ws| ==> IsWord(ws[i])
    ensures Tokens(Unsplit(ws)) == ws
  {
    if ws == [] {
    } else if |ws| == 1 {
      TokensOfWord(ws[0]);
    } else {
      TokensOfWord(ws[0]);
      TokensOfUnsplit(ws[1..]);
      TokensSplitAtDelim(ws[0], WhiteSpace, Unsplit(ws[1..]));
      assert [ws[0]] + ws[1..] == ws;
    }
  }

  predicate NulFreeFrom(buf: array<char>, lo: nat, hi: nat)
    reads buf
    requires lo <= hi <= buf.Length
  {
    forall k :: lo <= k < hi ==> buf[k] != NUL
  }

  /** Two adjacent NUL-free stretches of a buffer make one. */
  lemma NulFreeFromJoin(buf: array<char>, lo: nat, mid: nat, hi: nat)
    requires lo <= mid <= hi <= buf.Length
    requires NulFreeFrom(buf, lo, mid) && NulFreeFrom(buf, mid, hi)
    ensures NulFreeFrom(buf, lo, hi)
  {
  }

  /** The token found at `start`, after the delimiters from `pos` on, is the
      first token from `pos` on, and the scan resumes at `next`. */
  lemma TokenAfterDelims(buf: array<char>, pos: nat, start: nat, i: nat, next: nat)
    requires pos <= start < i <= buf.Length && i <= next <= buf.Length
    requires Tokens(buf[pos..]) == Tokens(buf[start..])
    requires forall k :: start <= k < i ==> IsWordChar(buf[k])
    requires i == buf.Length || !IsWordChar(buf[i])
    requires Tokens(buf[i..]) == Tokens(buf[next..])
    ensures Tokens(buf[pos..]) == [buf[start..i]] + Tokens(buf[next..])
  {
    var b := buf[..];
    assert b[start..] == buf[start..] && b[i..] == buf[i..] && b[start..i] == buf[start..i];
    TokenAt(b, start, i);
  }

  /** A delimiter at position i of a buffer is skipped. */
  lemma SkipDelimAt(b: seq<char>, i: nat)
    requires i < |b| && IsDelim(b[i])
    ensures Tokens(b[i..]) == Tokens(b[i + 1..])
  {
    SkipDelim(b[i..]);
    assert b[i..][1..] == b[i + 1..];
  }

  /** The first loop of strtok: skips the delimiters from `pos` on. */
  method SkipDelims(buf: array<char>, pos: nat) returns (i: nat)
    requires pos <= buf.Length
    ensures pos <= i <= buf.Length
    ensures NulFreeFrom(buf, pos, i)
    ensures i < buf.Length ==> !IsDelim(buf[i])
    ensures Tokens(buf[pos..]) == Tokens(buf[i..])
  {
    i := pos;
    while i < buf.Length && IsDelim(buf[i])
      invariant pos <= i <= buf.Length
      invariant NulFreeFrom(buf, pos, i)
      invariant Tokens(buf[pos..]) == Tokens(buf[i..])
    {
      SkipDelimAt(buf[..], i);
      i := i + 1;
    }
  }

  /** The second loop of strtok: the end of the run of word characters that
      starts at `start`. */
  method ScanWord(buf: array<char>, start: nat) returns (i: nat)
    requires start < buf.Length && IsWordChar(buf[start])
    ensures start < i <= buf.Length
    ensures forall k :: start <= k < i ==> IsWordChar(buf[k])
    ensures i < buf.Length ==> !IsWordChar(buf[i])
    ensures NulFreeFrom(buf, start, i)
  {
    i := start + 1;
    while i < buf.Length && IsWordChar(buf[i])
      invariant start < i <= buf.Length
      invariant forall k :: start <= k < i ==> IsWordChar(buf[k])
    {
      i := i + 1;
    }
  }

  /** One call of strtok(…, " \n") that resumes at `pos`: it skips
      delimiters, then takes the run of word characters that follows and
      resumes after the delimiter that ends it. `overrun` is set when the
      scan reaches the end of `buf` without meeting a NUL, where the C
      library goes on reading the byte after the buffer. The NUL that strtok
      writes over the ending delimiter is not modelled: the scan resumes
      after it and the shell clears the buffer before reading it again. */
  method Strtok(buf: array<char>, pos: nat) returns (tok: Option<seq<char>>, next: nat, overrun: bool)
    requires pos <= buf.Length
    ensures pos <= next <= buf.Length
    ensures NulFreeFrom(buf, pos, next)
    ensures tok.None? ==> Tokens(buf[pos..]) == []
    ensures tok.Some? ==> pos < next && Tokens(buf[pos..]) == [tok.value] + Tokens(buf[next..])
    ensures tok.None? ==> (overrun <==> NulFreeFrom(buf, pos, buf.Length))
    ensures tok.Some? ==> (overrun <==> next == buf.Length && EndsInWord(buf[..]))
  {
    var start := SkipDelims(buf, pos);
    if start == buf.Length {
      return None, start, true;
    }
    if buf[start] == NUL {
      return None, start, false;
    }
    var i := ScanWord(buf, start);
    tok := Some(buf[start..i]);
    next, overrun := Resume(buf, i);
    NulFreeFromJoin(buf, pos, start, i);
    NulFreeFromJoin(buf, pos, i, next);
    TokenAfterDelims(buf, pos, start, i, next);
  }

  /** The end of strtok: after a delimiter ending the token the next call
      resumes past it; at a NUL or the end of the buffer it resumes there. */
  method Resume(buf: array<char>, i: nat) returns (next: nat, overrun: bool)
    requires i <= buf.Length && (i == buf.Length || !IsWordChar(buf[i]))
    ensures i <= next <= buf.Length && NulFreeFrom(buf, i, next)
    ensures Tokens(buf[i..]) == Tokens(buf[next..])
    ensures overrun <==> i == buf.Length
    ensures i < buf.Length && buf[i] == NUL ==> next == i
    ensures i < buf.Length && buf[i] != NUL ==> next == i + 1
    ensures i < next == buf.Length ==> !IsWordChar(buf[buf.Length - 1])
  {
    if i == buf.Length {
      next, overrun := i, true;
    } else if buf[i] == NUL {
      next, overrun := i, false;
    } else {
      SkipDelimAt(buf[..], i);
      assert buf[..][i..] == buf[i..] && buf[..][i + 1..] == buf[i + 1..];
      next, overrun := i + 1, false;
    }
  }

  /** FirstToken restated at a position of a buffer. */
  lemma TokenAt(b: seq<char>, start: nat, i: nat)
    requires start < i <= |b| && forall k :: start <= k < i ==> IsWordChar(b[k])
    requires i == |b| || !IsWordChar(b[i])
    ensures Tokens(b[start..]) == [b[start..i]] + Tokens(b[i..])
  {
    var s := b[start..];
    FirstToken(s, i - start);
    assert s[..i - start] == b[start..i];
    assert s[i - start..] == b[i..];
  }

  /** Every token is a word. */
  lemma {:induction false} TokensAreWords(s: seq<char>)
    ensures forall i :: 0 <= i < |Tokens(s)| ==> IsWord(Tokens(s)[i])
    decreases |s|
  {
    if s == [] || s[0] == NUL {
    } else if IsDelim(s[0]) {
      TokensAreWords(s[1..]);
    } else {
      var n := WordLen(s);
      WordLenRun(s);
      TokensAreWords(s[n..]);
      assert Tokens(s) == [s[..n]] + Tokens(s[n..]);
    }
  }

  /** The first argument kept, if any, is a token. */
  lemma FirstArgIsWord(s: seq<char>)
    ensures Take(Tokens(s), MaxArgs) != [] ==> IsWord(Take(Tokens(s), MaxArgs)[0])
  {
    var t := Tokens(s);
    if Take(t, MaxArgs) != [] {
      TokensAreWords(s);
      assert Take(t, MaxArgs)[0] == t[0];
    }
  }

  /** The argument loop of _gshell_process over the whole receive buffer:
      the first G_MAX_ARGS tokens, in order. `overrun` tells whether the C
      code reads past the end of `buf`. It does so exactly when `buf` holds
      no NUL and either the loop asks for one more token than the buffer
      holds, or the token it stops at is the last one and runs up to the end
      of the buffer. */
  method Split(buf: array<char>) returns (argv: seq<seq<char>>, overrun: bool)
    ensures argv == Take(Tokens(buf[..]), MaxArgs)
    ensures overrun <==>
      NulFree(buf[..]) &&
      (|Tokens(buf[..])| <= MaxArgs || (|Tokens(buf[..])| == MaxArgs + 1 && EndsInWord(buf[..])))
  {
    argv := [];
    var pch, pos, o := Strtok(buf, 0);
    overrun := o;
    assert buf[0..] == buf[..];
    while pch.Some?
      invariant pos <= buf.Length
      invariant |argv| <= MaxArgs
      invariant NulFreeFrom(buf, 0, pos)
      invariant pch.Some? ==> Tokens(buf[..]) == argv + [pch.value] + Tokens(buf[pos..])
      invariant pch.None? ==> Tokens(buf[..]) == argv
      invariant pch.None? ==> (overrun <==> NulFreeFrom(buf, 0, buf.Length))
      invariant pch.Some? ==> (overrun <==> pos == buf.Length && EndsInWord(buf[..]))
      decreases buf.Length - pos, pch.Some?
    {
      if |argv| < MaxArgs {
        argv := argv + [pch.value];
        var more;
        pch, pos, more := Strtok(buf, pos);
        overrun := overrun || more;
      } else {
        break;
      }
    }
    assert NulFree(buf[..]) <==> NulFreeFrom(buf, 0, buf.Length);
    if pch.Some? && pos < buf.Length && NulFreeFrom(buf, 0, buf.Length) && EndsInWord(buf[..]) {
      assert buf[..][pos..] == buf[pos..];
      EndsInWordHasToken(buf[pos..]);
    }
  }
}
