/** A model of the terminal at the other end of put_char, just large enough
    for the characters the shell sends: printable ASCII, carriage return,
    line feed, backspace and escape sequences of the form ESC [ parameters
    final-character. Of those sequences only "erase in line" (final
    character K) changes what is displayed; the shell sends it only as
    ESC [ 2 K, which erases the whole line. The model keeps the line the
    cursor is on: its text, the cursor column and the state of the escape
    sequence parser. A line feed starts a blank line. */
module Terminal {
  const Esc: char := '\U{1b}'
  const Bs: char := '\U{8}'

  datatype Mode = Ground | Escape | Csi
  datatype Screen = Screen(text: seq<char>, cursor: nat, mode: Mode)

  /** The terminal before the shell has sent anything. */
  const Blank: Screen := Screen([], 0, Ground)

  predicate Printable(c: char)
  {
    ' ' <= c <= '~'
  }

  predicate AllPrintable(s: seq<char>)
  {
    forall i :: 0 <= i < |s| ==> Printable(s[i])
  }

  function Spaces(n: nat): (r: seq<char>)
    ensures |r| == n && forall i :: 0 <= i < n ==> r[i] == ' '
  {
    if n == 0 then [] else Spaces(n - 1) + [' ']
  }

  /** Writing c at the cursor replaces the character there, or extends the
      line with blanks up to the cursor; the cursor moves right. */
  function Put(t: Screen, c: char): Screen
  {
    if t.cursor < |t.text| then t.(text := t.text[t.cursor := c], cursor := t.cursor + 1)
    else t.(text := t.text + Spaces(t.cursor - |t.text|) + [c], cursor := t.cursor + 1)
  }

  /** The effect of one received character. Control characters act even in
      the middle of an escape sequence, as they do on VT100-style terminals. */
  function Step(t: Screen, c: char): Screen
  {
    if c == '\r' then t.(cursor := 0)
    else if c == '\n' then t.(text := [])
    else if c == Bs then t.(cursor := if t.cursor > 0 then t.cursor - 1 else 0)
    else if c == Esc then t.(mode := Escape)
    else
      match t.mode
      case Escape => t.(mode := if c == '[' then Csi else Ground)
      case Csi => if '@' <= c <= '~' then t.(text := if c == 'K' then [] else t.text, mode := Ground) else t
      case Ground => if Printable(c) then Put(t, c) else t
  }

  /** The terminal after receiving `s`. */
  function Feed(t: Screen, s: seq<char>): Screen
    decreases |s|
  {
    if s == [] then t else Feed(Step(t, s[0]), s[1..])
  }

  /** The cursor's line reads `shown` up to the cursor, holds only blanks
      after it, and no escape sequence is pending: what a user who typed
      `shown` expects to see. */
  predicate Shows(t: Screen, shown: seq<char>)
  {
    && t.mode == Ground
    && t.cursor == |shown| <= |t.text|
    && t.text[..t.cursor] == shown
    && forall i :: t.cursor <= i < |t.text| ==> t.text[i] == ' '
  }

  lemma {:induction false} FeedAppend(t: Screen, a: seq<char>, b: seq<char>)
    ensures Feed(t, a + b) == Feed(Feed(t, a), b)
    decreases |a|
  {
    if a != [] {
      assert (a + b)[1..] == a[1..] + b;
      FeedAppend(Step(t, a[0]), a[1..], b);
    } else {
      assert a + b == b;
    }
  }

  /** Feeding a and then b: when a takes t0 to t1 and b takes t1 to t2,
      a + b takes t0 to t2. */
  lemma FeedThrough(t0: Screen, a: seq<char>, t1: Screen, b: seq<char>, t2: Screen)
    requires Feed(t0, a) == t1 && Feed(t1, b) == t2
    ensures Feed(t0, a + b) == t2
  {
    FeedAppend(t0, a, b);
  }

  /** Printable text typed on a blank line is what the line reads. */
  lemma TypeOnBlank(s: seq<char>)
    requires AllPrintable(s)
    ensures Feed(Screen([], 0, Ground), s) == Screen(s, |s|, Ground)
  {
    TypeAtEnd([], s);
    assert [] + s == s;
  }

  /** A printable character lands after what is shown. */
  lemma TypeOne(t: Screen, shown: seq<char>, c: char)
    requires Shows(t, shown) && Printable(c)
    ensures Shows(Step(t, c), shown + [c])
  {
    var u := Step(t, c);
    assert u == Put(t, c);
    if t.cursor < |t.text| {
      assert u.text[..u.cursor] == t.text[..t.cursor] + [c];
    } else {
      assert u.text == t.text + [c];
    }
  }

  /** Printable text lands after what is shown, character by character. */
  lemma {:induction false} TypeText(t: Screen, shown: seq<char>, s: seq<char>)
    requires Shows(t, shown) && AllPrintable(s)
    ensures Shows(Feed(t, s), shown + s)
    decreases |s|
  {
    if s != [] {
      TypeOne(t, shown, s[0]);
      assert shown + [s[0]] + s[1..] == shown + s;
      TypeText(Step(t, s[0]), shown + [s[0]], s[1..]);
    }
  }

  /** Backspace, blank, backspace removes the last character shown. */
  lemma EraseOne(t: Screen, shown: seq<char>)
    requires Shows(t, shown) && shown != []
    ensures Shows(Feed(t, [Bs, ' ', Bs]), shown[..|shown| - 1])
  {
    var k := |shown|;
    var t1 := Step(t, Bs);
    assert t1 == t.(cursor := k - 1);
    var t2 := Step(t1, ' ');
    assert t2 == t.(text := t.text[k - 1 := ' ']);
    var t3 := Step(t2, Bs);
    assert t3 == t2.(cursor := k - 1);
    assert [Bs, ' ', Bs][1..] == [' ', Bs] && [' ', Bs][1..] == [Bs] && [Bs][1..] == [];
    assert Feed(t3, []) == t3;
    assert Feed(t2, [Bs]) == t3;
    assert Feed(t1, [' ', Bs]) == t3;
    assert t3.text[..k - 1] == shown[..k - 1];
  }

  /** A carriage return and line feed leave the cursor at the start of a blank line. */
  lemma NewLine(t: Screen)
    ensures Feed(t, "\r\n") == Screen([], 0, t.mode)
  {
    assert "\r\n"[1..] == "\n";
    assert "\n"[1..] == [];
  }

  predicate AllDigits(p: seq<char>)
  {
    forall i :: 0 <= i < |p| ==> '0' <= p[i] <= '9'
  }

  /** The parameters of a control sequence leave the screen untouched. */
  lemma {:induction false} CsiParams(t: Screen, p: seq<char>)
    requires t.mode == Csi && AllDigits(p)
    ensures Feed(t, p) == t
    decreases |p|
  {
    if p != [] {
      assert Step(t, p[0]) == t;
      CsiParams(t, p[1..]);
    }
  }

  /** A select-graphic-rendition sequence ESC [ digits m changes attributes
      only, which the model does not keep: the screen is as before, with no
      sequence pending. */
  lemma SelectGraphic(t: Screen, p: seq<char>)
    requires AllDigits(p)
    ensures Feed(t, [Esc, '['] + p + ['m']) == t.(mode := Ground)
  {
    var u := t.(mode := Csi);
    assert Feed(t, [Esc, '[']) == u by {
      assert [Esc, '['][1..] == ['['] && ['['][1..] == [];
    }
    CsiParams(u, p);
    assert Feed(u, ['m']) == t.(mode := Ground) by {
      assert ['m'][1..] == [];
    }
    FeedAppend(t, [Esc, '['], p);
    FeedAppend(t, [Esc, '['] + p, ['m']);
  }

  /** Printable text typed at the end of a line extends it. */
  lemma {:induction false} TypeAtEnd(text: seq<char>, s: seq<char>)
    requires AllPrintable(s)
    ensures Feed(Screen(text, |text|, Ground), s) == Screen(text + s, |text| + |s|, Ground)
    decreases |s|
  {
    if s == [] {
      assert text + s == text;
    } else {
      assert Step(Screen(text, |text|, Ground), s[0]) == Screen(text + [s[0]], |text| + 1, Ground) by {
        assert Spaces(0) == [];
      }
      TypeAtEnd(text + [s[0]], s[1..]);
      assert text + [s[0]] + s[1..] == text + s;
    }
  }

  /** Printable text typed inside a line overwrites the characters under it. */
  lemma {:induction false} Overtype(text: seq<char>, k: nat, s: seq<char>)
    requires k + |s| <= |text| && AllPrintable(s)
    ensures Feed(Screen(text, k, Ground), s) == Screen(text[..k] + s + text[k + |s|..], k + |s|, Ground)
    decreases |s|
  {
    if s == [] {
      assert text[..k] + s + text[k..] == text;
    } else {
      var u := text[k := s[0]];
      assert Step(Screen(text, k, Ground), s[0]) == Screen(u, k + 1, Ground);
      Overtype(u, k + 1, s[1..]);
      assert u[..k + 1] + s[1..] == text[..k] + s;
      assert u[k + 1 + |s[1..]|..] == text[k + |s|..];
    }
  }
}
