/** The command registry of gshell.c: a chain of command records linked
    through their `next` fields, whose walk always starts at the built-in
    help record (gshell.c:81-118, 188-201, 269-286), followed by the static
    list gshell_list_commands. */
module Registry {
  import opened Wrappers
  import opened CString
  import opened GshellH

  /** The address of a gshell_cmd_t record. */
  type CmdRef = nat

  /** The address of the built-in record cmd_help. */
  const HelpRef: CmdRef := 0

  /** What registration keeps: g_shell.chain_len, g_shell.lastChain (None
      for NULL) and the `next` field of every record (a record that is not
      a key has a NULL `next`). */
  datatype Links = Links(chainLen: uint8, lastChain: Option<CmdRef>, next: map<CmdRef, CmdRef>)

  /** The zero-initialised state before any registration. */
  const Unlinked: Links := Links(0, None, map[])

  /** lastChain is NULL only while nothing has been registered (or after
      chain_len wrapped to 0). */
  predicate Consistent(l: Links)
  {
    l.lastChain.None? ==> l.chainLen == 0
  }

  /** gshell_register_cmd as written: the first registration records the
      command as lastChain; every later one links it behind lastChain, which
      it never advances. The new chain_len, which wraps as a uint8_t, is what
      the C function returns. */
  function Register(l: Links, cmd: CmdRef): (r: Links)
    requires Consistent(l)
    ensures Consistent(r)
    ensures r.chainLen == (l.chainLen + 1) % 256
  {
    if l.lastChain.None? && l.chainLen == 0 then
      Links(1, Some(cmd), l.next)
    else
      Links((l.chainLen + 1) % 256, l.lastChain, l.next[l.lastChain.value := cmd])
  }

  /** The corrected registration: the new record becomes lastChain, so that
      the next registration links behind it. */
  function RegisterLinked(l: Links, cmd: CmdRef): (r: Links)
    requires Consistent(l)
    ensures Consistent(r)
    ensures r.chainLen == (l.chainLen + 1) % 256 && r.lastChain == Some(cmd)
  {
    if l.lastChain.None? && l.chainLen == 0 then
      Links(1, Some(cmd), l.next)
    else
      Links((l.chainLen + 1) % 256, Some(cmd), l.next[l.lastChain.value := cmd])
  }

  /** Registering the commands `cmds` in order, as written or corrected. */
  function RegisterAll(l: Links, cmds: seq<CmdRef>, linked: bool): (r: Links)
    requires Consistent(l)
    ensures Consistent(r)
  {
    if cmds == [] then l
    else
      var before := RegisterAll(l, cmds[..|cmds| - 1], linked);
      if linked then RegisterLinked(before, cmds[|cmds| - 1]) else Register(before, cmds[|cmds| - 1])
  }

  /** The records the chain loops of _gshellFindCmd and gshell_cmd_help visit
      in n steps: cmd_help first, then each `next` in turn. None when a step
      would follow a NULL `next`. */
  function Walk(next: map<CmdRef, CmdRef>, n: nat): (r: Option<seq<CmdRef>>)
    ensures r.Some? ==> |r.value| == n
    ensures r.Some? && n > 0 ==> r.value[0] == HelpRef
    ensures r.Some? ==> Linked(next, r.value)
  {
    if n == 0 then Some([])
    else if n == 1 then Some([HelpRef])
    else
      match Walk(next, n - 1)
      case None => None
      case Some(p) => if p[n - 2] in next then Some(p + [next[p[n - 2]]]) else None
  }

  /** Each record of `path` is followed by the one its `next` field names. */
  predicate Linked(next: map<CmdRef, CmdRef>, path: seq<CmdRef>)
  {
    forall k :: 0 <= k < |path| - 1 ==> path[k] in next && path[k + 1] == next[path[k]]
  }

  /** A path that starts at cmd_help and follows `next` is what the walk visits. */
  lemma {:induction false} WalkFollows(next: map<CmdRef, CmdRef>, path: seq<CmdRef>)
    requires path != [] && path[0] == HelpRef
    requires Linked(next, path)
    ensures Walk(next, |path|) == Some(path)
  {
    var n := |path|;
    if n == 1 {
      assert path == [HelpRef];
    } else {
      var p := path[..n - 1];
      assert Linked(next, p) by {
        forall k | 0 <= k < |p| - 1 ensures p[k] in next && p[k + 1] == next[p[k]] {
          assert p[k] == path[k] && p[k + 1] == path[k + 1];
        }
      }
      WalkFollows(next, p);
      assert p[n - 2] == path[n - 2] && path[n - 2] in next;
      assert p + [path[n - 1]] == path;
    }
  }

  /** As written, every registration after the first overwrites help's
      `next`: after cmd_help and the commands `user`, only the last of them
      is linked, behind cmd_help. */
  lemma {:induction false} AsWrittenLinksOnlyLast(user: seq<CmdRef>)
    requires user != [] && |user| < 255
    ensures RegisterAll(Unlinked, [HelpRef] + user, false)
         == Links(|user| + 1, Some(HelpRef), map[HelpRef := user[|user| - 1]])
  {
    var cmds := [HelpRef] + user;
    assert cmds[..|cmds| - 1] == [HelpRef] + user[..|user| - 1];
    if |user| == 1 {
      assert [HelpRef][..0] == [];
      assert RegisterAll(Unlinked, [HelpRef], false) == Links(1, Some(HelpRef), map[]);
    } else {
      AsWrittenLinksOnlyLast(user[..|user| - 1]);
    }
  }

  /** The registration bug: once cmd_help and two more commands are
      registered, chain_len is 3 but only two records are linked, so the
      chain walk follows a NULL `next`. */
  lemma ThirdRegistrationBreaksWalk(a: CmdRef, b: CmdRef)
    requires b != HelpRef
    ensures var l := RegisterAll(Unlinked, [HelpRef, a, b], false);
      l.chainLen == 3 && Walk(l.next, l.chainLen).None?
  {
    AsWrittenLinksOnlyLast([a, b]);
    assert [HelpRef] + [a, b] == [HelpRef, a, b];
    var next := map[HelpRef := b];
    WalkFollows(next, [HelpRef, b]);
  }

  /** With cmd_help and at most one other command registered, the walk
      stays on linked records: this is the precondition the chain loops
      actually need. */
  lemma AsWrittenWalkSafe(user: seq<CmdRef>)
    requires |user| <= 1
    ensures var l := RegisterAll(Unlinked, [HelpRef] + user, false);
      l.chainLen == |user| + 1 && Walk(l.next, l.chainLen).Some?
  {
    if user == [] {
      assert ([HelpRef] + user)[..0] == [];
    } else {
      AsWrittenLinksOnlyLast(user);
      WalkFollows(map[HelpRef := user[0]], [HelpRef, user[0]]);
    }
  }

  /** With the corrected registration, registering cmd_help and then distinct
      other commands links each behind the previous one, so the walk of
      chain_len steps visits exactly the registered commands in order. */
  lemma {:induction false} LinkedChainFollowsOrder(cmds: seq<CmdRef>)
    requires cmds != [] && cmds[0] == HelpRef && |cmds| < 256
    requires forall i, j :: 0 <= i < j < |cmds| ==> cmds[i] != cmds[j]
    ensures var l := RegisterAll(Unlinked, cmds, true);
      l.chainLen == |cmds| && l.lastChain == Some(cmds[|cmds| - 1]) && Walk(l.next, l.chainLen) == Some(cmds)
  {
    LinkedNext(cmds);
    var l := RegisterAll(Unlinked, cmds, true);
    WalkFollows(l.next, cmds);
  }

  /** The `next` fields the corrected registration leaves: each registered
      command points at the one registered after it. */
  lemma {:induction false} LinkedNext(cmds: seq<CmdRef>)
    requires cmds != [] && |cmds| < 256
    requires forall i, j :: 0 <= i < j < |cmds| ==> cmds[i] != cmds[j]
    ensures var l := RegisterAll(Unlinked, cmds, true);
      l.chainLen == |cmds| && l.lastChain == Some(cmds[|cmds| - 1])
      && Linked(l.next, cmds)
  {
    var p := cmds[..|cmds| - 1];
    if p == [] {
    } else {
      LinkedNext(p);
      var l0 := RegisterAll(Unlinked, p, true);
      var l := RegisterAll(Unlinked, cmds, true);
      assert l.next == l0.next[p[|p| - 1] := cmds[|cmds| - 1]];
      forall k | 0 <= k < |cmds| - 1
        ensures cmds[k] in l.next && l.next[cmds[k]] == cmds[k + 1]
      {
        if k < |p| - 1 {
          assert cmds[k] == p[k] != p[|p| - 1];
          assert cmds[k + 1] == p[k + 1];
        }
      }
    }
  }

  /** _G_STRNCMP(name, cmdName, G_RX_BUFSIZE) == 0 */
  predicate Matches(name: seq<char>, cmd: Command)
  {
    StrnEqual(name, cmd.name, RxBufSize)
  }

  /** The position of the first command whose name matches: the lookup takes
      the earliest match and never a later one. */
  function FirstMatch(name: seq<char>, cmds: seq<Command>): (r: Option<nat>)
    ensures r.Some? ==> r.value < |cmds| && Matches(name, cmds[r.value])
    ensures r.Some? ==> forall j :: 0 <= j < r.value ==> !Matches(name, cmds[j])
    ensures r.None? ==> forall j :: 0 <= j < |cmds| ==> !Matches(name, cmds[j])
  {
    if cmds == [] then None
    else if Matches(name, cmds[0]) then Some(0)
    else
      match FirstMatch(name, cmds[1..])
      case None => None
      case Some(i) => Some(i + 1)
  }

  /** A match with no earlier match is the one the lookup finds. */
  lemma FirstMatchAt(name: seq<char>, cmds: seq<Command>, i: nat)
    requires i < |cmds| && Matches(name, cmds[i])
    requires forall j :: 0 <= j < i ==> !Matches(name, cmds[j])
    ensures FirstMatch(name, cmds) == Some(i)
  {
  }
}
