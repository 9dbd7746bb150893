/** Splitting a path into node names: `detach_node` of lib/stdlib.c, and the walk that
    `sys_do_open` of kernel/kmodel.c makes with it. */
module Path {
  import opened CStrings

  const K_MAX_LEN_NODE_NAME: nat := 14

  // ---- splitting and joining ----

  /** The texts between the slashes. */
  ghost function Split(s: string): (cs: seq<string>)
    ensures |cs| >= 1
  {
    if s == [] then [""]
    else if s[0] == '/' then [""] + Split(s[1..])
    else var t := Split(s[1..]); [[s[0]] + t[0]] + t[1..]
  }

  /** The text with a slash before every component. */
  ghost function Join(cs: seq<string>): string {
    if cs == [] then "" else "/" + cs[0] + Join(cs[1..])
  }

  ghost predicate Rooted(path: string) {
    path != [] && path[0] == '/'
  }

  /** The node names of a path that starts with a slash. */
  ghost function Components(path: string): (cs: seq<string>)
    requires Rooted(path)
    ensures |cs| >= 1
  {
    Split(path[1..])
  }

  ghost predicate Plain(c: string) {
    forall i :: 0 <= i < |c| ==> c[i] != '/'
  }

  lemma {:induction false} JoinSplit(s: string)
    ensures "/" + s == Join(Split(s))
  {
    if s == [] {
      assert Join([""]) == "/" + "" + Join([]);
    } else {
      JoinSplit(s[1..]);
      var t := Split(s[1..]);
      if s[0] == '/' {
        JoinSlash(t);
        assert s == "/" + s[1..];
      } else {
        Uncons('/', s[1..], t[0] + Join(t[1..]));
        JoinLetter(s[0], t);
        assert s == [s[0]] + s[1..];
      }
    }
  }

  lemma {:induction false} JoinSlash(t: seq<string>)
    ensures Join([""] + t) == "/" + Join(t)
  {
    assert ([""] + t)[1..] == t;
  }

  lemma {:induction false} JoinLetter(c: char, t: seq<string>)
    requires t != []
    ensures Join([[c] + t[0]] + t[1..]) == "/" + ([c] + (t[0] + Join(t[1..])))
  {
    var u := [[c] + t[0]] + t[1..];
    assert u[1..] == t[1..];
    assert [c] + t[0] + Join(t[1..]) == [c] + (t[0] + Join(t[1..]));
  }

  lemma {:induction false} Uncons(c: char, a: string, b: string)
    requires [c] + a == [c] + b
    ensures a == b
  {
    assert ([c] + a)[1..] == a && ([c] + b)[1..] == b;
  }

  /** The components put together again are the path. */
  lemma {:induction false} ComponentsJoin(path: string)
    requires Rooted(path)
    ensures Join(Components(path)) == path
  {
    JoinSplit(path[1..]);
    assert path == "/" + path[1..];
  }

  lemma {:induction false} SplitPlain(c: string, rest: string)
    requires Plain(c) && (rest == [] || rest[0] == '/')
    ensures Split(c + rest) == [c] + Split(rest)[1..]
  {
    if c == [] {
      assert c + rest == rest;
    } else {
      assert (c + rest)[1..] == c[1..] + rest;
      SplitPlain(c[1..], rest);
      assert [c[0]] + c[1..] == c;
    }
  }

  /** Every list of slash-free names is what its joined text splits into. */
  lemma {:induction false} ComponentsOfJoin(cs: seq<string>)
    requires cs != [] && forall i :: 0 <= i < |cs| ==> Plain(cs[i])
    ensures Rooted(Join(cs)) && Components(Join(cs)) == cs
  {
    var c, rest := cs[0], Join(cs[1..]);
    assert Join(cs)[1..] == c + rest;
    SplitPlain(c, rest);
    if |cs| == 1 {
      assert cs == [c];
    } else {
      ComponentsOfJoin(cs[1..]);
      assert Split(rest) == [""] + Split(rest[1..]);
      assert cs == [c] + cs[1..];
    }
  }

  // ---- detach_node ----

  /** What is split off behind position `pos`: the rest of the current text, and all later ones. */
  lemma {:induction false} SplitAt(s: string, pos: nat)
    requires pos < |s|
    ensures s[pos..][1..] == s[pos + 1..]
    ensures var here, next := Split(s[pos..]), Split(s[pos + 1..]);
            if s[pos] == '/' then here == [""] + next
            else here == [[s[pos]] + next[0]] + next[1..]
  {
    assert s[pos..][1..] == s[pos + 1..];
  }

  /** The first loop: walk behind slash number `index`, or to the end. */
  method Seek(index: nat, path: string) returns (pos: nat)
    requires Rooted(path) && CString(path)
    ensures pos <= |path|
    ensures index < |Components(path)| ==> Split(path[pos..]) == Components(path)[index..]
    ensures index >= |Components(path)| ==> pos == |path|
  {
    var i := 0;
    pos := 0;
    ghost var cs := Components(path);
    assert path[0..] == path;
    SplitAt(path, 0);
    while At(path, pos) != NUL
      invariant pos <= |path| && i <= index && i <= |cs|
      invariant Split(path[pos..])[1..] == cs[i..]
      decreases |path| - pos
    {
      SplitAt(path, pos);
      if At(path, pos) == '/' {
        if i == index {
          pos := pos + 1;
          return;
        }
        i := i + 1;
      }
      pos := pos + 1;
    }
  }

  /** The second loop: copy at most `max` characters of the component. */
  method CopyName(path: string, start: nat, buf: array<char>, max: nat) returns (pos: nat, len: nat)
    requires start <= |path| && CString(path) && max <= buf.Length
    modifies buf
    ensures start <= pos <= |path| && len == pos - start == Clipped(Split(path[start..])[0], max)
    ensures buf[..] == Split(path[start..])[0][..len] + old(buf[len..])
    ensures Split(path[pos..]) == [Split(path[start..])[0][len..]] + Split(path[start..])[1..]
  {
    ghost var cs, was := Split(path[start..]), buf[..];
    pos, len := start, 0;
    var m: int := max;
    while m > 0 && At(path, pos) != NUL && At(path, pos) != '/'
      invariant pos == start + len <= |path| && 0 <= m == max - len && len <= |cs[0]|
      invariant Split(path[pos..]) == [cs[0][len..]] + cs[1..]
      invariant buf[..] == cs[0][..len] + was[len..]
      decreases m
    {
      SplitAt(path, pos);
      assert cs[0][len..] == Split(path[pos..])[0];
      assert cs[1..] == Split(path[pos..])[1..];
      NextLetter(cs[0], len, path[pos], Split(path[pos + 1..])[0]);
      buf[len] := path[pos];
      Extended(cs[0], was, len);
      pos, len, m := pos + 1, len + 1, m - 1;
    }
    if m > 0 { SplitStop(path, pos); }
  }

  lemma {:induction false} NextLetter(c: string, len: nat, x: char, rest: string)
    requires len <= |c| && c[len..] == [x] + rest
    ensures len < |c| && c[len] == x && rest == c[len + 1..]
  {
    assert c[len..][0] == x && c[len..][1..] == rest;
    assert c[len..][1..] == c[len + 1..];
  }

  lemma {:induction false} Extended(c: string, was: string, len: nat)
    requires len < |c| && len < |was|
    ensures (c[..len] + was[len..])[len := c[len]] == c[..len + 1] + was[len + 1..]
  {}

  lemma {:induction false} SplitStop(path: string, pos: nat)
    requires pos <= |path| && CString(path) && (At(path, pos) == NUL || At(path, pos) == '/')
    ensures Split(path[pos..])[0] == ""
  {
    if pos < |path| { SplitAt(path, pos); }
  }

  /** The last loop, over memory that starts inside the path or behind its terminator: is there a
      slash before the next zero, and is it the last character there? */
  method ScanOn(memory: string, start: nat) returns (slash: bool, empty: bool)
    requires start <= |memory|
    ensures slash == Slashed(memory[start..])
    ensures slash ==> empty == Ended(memory[start..])
  {
    var pos := start;
    while At(memory, pos) != NUL
      invariant start <= pos <= |memory|
      invariant Split(Text(memory[pos..]))[1..] == Split(Text(memory[start..]))[1..]
      decreases |memory| - pos
    {
      TextAt(memory, pos);
      if At(memory, pos) == '/' {
        return true, At(memory, pos + 1) == NUL;
      }
      pos := pos + 1;
    }
    slash, empty := false, false;
  }

  /** The text at the start of some memory has a slash. */
  ghost predicate Slashed(memory: string) {
    |Split(Text(memory))| > 1
  }

  /** The first slash of that text is its last character. */
  ghost predicate Ended(memory: string) {
    Split(Text(memory))[1..] == [""]
  }

  lemma {:induction false} TextAt(memory: string, pos: nat)
    requires pos < |memory| && memory[pos] != NUL
    ensures Split(Text(memory[pos..]))[1..]
            == if memory[pos] == '/' then Split(Text(memory[pos + 1..])) else Split(Text(memory[pos + 1..]))[1..]
    ensures Split(Text(memory[pos + 1..])) == [""] <==> At(memory, pos + 1) == NUL
  {
    var t, u := Text(memory[pos..]), Text(memory[pos + 1..]);
    assert memory[pos..][1..] == memory[pos + 1..];
    assert t == [memory[pos]] + u;
    assert t[1..] == u;
    SplitEmpty(u);
  }

  lemma {:induction false} SplitEmpty(s: string)
    ensures Split(s) == [""] <==> s == []
  {
    if s != [] && s[0] != '/' { assert Split(s)[0][0] == s[0]; }
  }

  /** What is read from `pos` on: the rest of the path, or what lies behind its terminator. */
  lemma {:induction false} MemoryText(path: string, behind: string, pos: nat)
    requires CString(path) && pos <= |path| + 1
    ensures var memory := path + [NUL] + behind;
            if pos <= |path| then Text(memory[pos..]) == path[pos..] else memory[pos..] == behind
    decreases |path| + 1 - pos
  {
    var memory := path + [NUL] + behind;
    if pos < |path| {
      MemoryText(path, behind, pos + 1);
      assert memory[pos..][1..] == memory[pos + 1..];
      assert path[pos..] == [path[pos]] + path[pos + 1..];
    } else if pos == |path| {
      assert memory[pos..][0] == NUL;
    }
  }

  /** What a call returns, what it leaves in the flag, and what it writes over the buffer. */
  datatype Detached = Detached(r: int, flg: int, name: string)

  /** What is wanted: component `index`, clipped to `max` characters, and a flag that says whether
      another component follows. The call fails on an empty component, and on a clipped one that only
      an empty last component follows. */
  ghost function Wanted(index: nat, path: string, before: int, max: nat): Detached {
    if !Rooted(path) then Detached(-1, before, "")
    else if index >= |Components(path)| then Detached(-1, 0, "")
    else
      var cs := Components(path)[index..];
      var n := Clipped(cs[0], max);
      Detached(if n == 0 || (n < |cs[0]| && cs[1..] == [""]) then -1 else n, if |cs| > 1 then 1 else 0, cs[0][..n])
  }

  /** Looking for the next slash, the call reads behind the terminator: nothing but an empty last
      component follows the whole component. */
  ghost predicate ReadsBehind(index: nat, path: string, max: nat)
    requires Rooted(path)
  {
    index >= |Components(path)|
    || (var cs := Components(path)[index..]; |cs[0]| <= max && (|cs| == 1 || cs[1..] == [""]))
  }

  /** What the code gives: a slash found behind the terminator sets the flag, and fails the call if a
      zero follows it. */
  ghost function Given(index: nat, path: string, behind: string, before: int, max: nat): Detached {
    var w := Wanted(index, path, before, max);
    if Rooted(path) && ReadsBehind(index, path, max) && Slashed(behind)
    then Detached(if Ended(behind) then -1 else w.r, 1, w.name)
    else w
  }

  /** The code gives what is wanted, for every index, exactly when the text behind the terminator has
      no slash; for an index inside the path also when the call does not read that far, or when the
      flag is set anyway and the call not failed. */
  lemma {:induction false} GivenIsWanted(path: string, behind: string, before: int, max: nat)
    requires Rooted(path)
    ensures (forall index: nat :: Given(index, path, behind, before, max) == Wanted(index, path, before, max))
            <==> !Slashed(behind)
    ensures forall index: nat | index < |Components(path)| ::
              Given(index, path, behind, before, max) == Wanted(index, path, before, max)
              <==> || !Slashed(behind) || !ReadsBehind(index, path, max)
                   || (index + 1 < |Components(path)| && (Ended(behind) ==> Wanted(index, path, before, max).r == -1))
  {
    var index := |Components(path)|;
    assert Slashed(behind) ==> Given(index, path, behind, before, max) != Wanted(index, path, before, max);
  }

  /** The path `/a` with `/b` behind its terminator: component 0 is the last, and the flag says otherwise. */
  lemma {:induction false} SlashBehind()
    ensures Wanted(0, "/a", 0, K_MAX_LEN_NODE_NAME) == Detached(1, 0, "a")
    ensures Given(0, "/a", "/b", 0, K_MAX_LEN_NODE_NAME) == Detached(1, 1, "a")
  {
    OneName("a");
    OneName("b");
    assert "/a"[1..] == "a" && "/b"[1..] == "b";
    assert Text("/b") == "/b" by { HeldText("/b", "/b"); }
    assert Components("/a")[0..] == ["a"];
    assert Split("/b") == [""] + Split("b");
  }

  /** A path that ends with a slash: its name is reported as not the last, but if it is cut the call
      fails. */
  lemma {:induction false} TrailingSlash(c: string, before: int, max: nat)
    requires Plain(c) && c != ""
    ensures Wanted(0, "/" + c + "/", before, max) == Detached(if |c| > max then -1 else |c|, 1, c[..Clipped(c, max)])
  {
    var cs := [c, ""];
    assert cs[1..] == [""] && [""][1..] == [];
    assert Join([""]) == "/" + "" + "";
    assert Join(cs) == "/" + c + "/";
    ComponentsOfJoin(cs);
    assert cs[0..] == cs;
  }

  lemma {:induction false} OneName(c: string)
    requires Plain(c)
    ensures Split(c) == [c]
  {
    SplitPlain(c, "");
    assert c + "" == c;
    assert Split("") == [""];
  }

  /** What the rest of a call makes of the components `cs` ahead, `len` characters of the first being
      copied. */
  ghost function Rest(cs: seq<string>, len: nat, behind: string): (int, int)
    requires cs != [] && len <= |cs[0]|
  {
    var past := len == |cs[0]| && (|cs| == 1 || cs[1..] == [""]) && Slashed(behind);
    (if len == 0 || (len < |cs[0]| && cs[1..] == [""]) || (past && Ended(behind)) then -1 else len,
     if |cs| > 1 || past then 1 else 0)
  }

  lemma {:induction false} GivenIsRest(index: nat, path: string, behind: string, before: int, max: nat)
    requires Rooted(path)
    ensures var all := Components(path);
            var cs := if index < |all| then all[index..] else [""];
            var n := Clipped(cs[0], max);
            Given(index, path, behind, before, max)
            == Detached(Rest(cs, n, behind).0, Rest(cs, n, behind).1, cs[0][..n])
  {
  }

  /** The end of `detach_node`, from `pos` on: is there another component? */
  method FindNext(path: string, behind: string, at: nat, len: nat, ghost cs: seq<string>) returns (r: int, flg: int)
    requires CString(path) && at <= |path| && cs != [] && len <= |cs[0]|
    requires Split(path[at..]) == [cs[0][len..]] + cs[1..]
    ensures (r, flg) == Rest(cs, len, behind)
  {
    var pos := at;
    r := -1;
    assert Split(path[at..])[0] == cs[0][len..] && Split(path[at..])[1..] == cs[1..];
    if pos < |path| { SplitAt(path, pos); }
    if At(path, pos) == '/' {
      flg := 1;
      pos := pos + 1;
      if At(path, pos) != NUL {
        SplitEmpty(path[pos..]);
        if len != 0 { r := len; }
        return;
      }
    } else {
      flg := 0;
    }
    pos := pos + 1;
    MemoryText(path, behind, pos);
    var slash, empty := ScanOn(path + [NUL] + behind, pos);
    if slash {
      flg := 1;
      if empty { return; }
    }
    if len != 0 { r := len; }
  }

  /** `detach_node` on a path with the bytes `behind` behind its terminator. */
  method Detach(index: nat, path: string, behind: string, buf: array<char>, before: int, max: nat)
    returns (r: int, flg: int)
    requires CString(path) && max <= buf.Length
    modifies buf
    ensures var g := Given(index, path, behind, before, max);
            |g.name| <= buf.Length && r == g.r && flg == g.flg && buf[..] == g.name + old(buf[|g.name|..])
            && (r == -1 || r == |g.name| > 0)
  {
    if At(path, 0) != '/' { return -1, before; }
    GivenIsRest(index, path, behind, before, max);
    var start := Seek(index, path);
    ghost var cs := Split(path[start..]);
    assert index >= |Components(path)| ==> path[start..] == "" && cs == [""];
    var pos, len := CopyName(path, start, buf, max);
    r, flg := FindNext(path, behind, pos, len, cs);
  }

  // ---- the walk of sys_do_open ----

  /** A name written over the start of an older one, without a terminator. */
  ghost function Overlay(c: string, under: string): string {
    if |c| >= |under| then c else c + under[|c|..]
  }

  ghost function Clip(c: string): string {
    c[..Clipped(c, K_MAX_LEN_NODE_NAME)]
  }

  /** The names the lookups are given: the buffer is not cleared between two components. */
  ghost function Seen(cs: seq<string>, before: string): (ns: seq<string>)
    ensures |ns| == |cs|
  {
    if cs == [] then [] else
      var n := Overlay(Clip(cs[0]), before);
      [n] + Seen(cs[1..], n)
  }

  lemma {:induction false} SeenAt(cs: seq<string>, before: string, i: nat)
    requires i < |cs|
    ensures Seen(cs, before)[i] == Overlay(Clip(cs[i]), if i == 0 then before else Seen(cs, before)[i - 1])
  {
    if i > 0 {
      SeenAt(cs[1..], Seen(cs, before)[0], i - 1);
    }
  }

  /** A path without a leading slash is looked up once, under the empty name. */
  ghost function Names(path: string): (cs: seq<string>)
    ensures |cs| >= 1
  {
    if Rooted(path) then Components(path) else [""]
  }

  lemma {:induction false} SplitCString(s: string)
    requires CString(s)
    ensures forall i :: 0 <= i < |Split(s)| ==> CString(Split(s)[i])
  {
    if s != [] { SplitCString(s[1..]); }
  }

  lemma {:induction false} NamesCString(path: string, i: nat)
    requires CString(path) && i < |Names(path)|
    ensures CString(Names(path)[i])
  {
    if Rooted(path) { SplitCString(path[1..]); }
  }

  lemma {:induction false} OverlayHeld(b: string, name: string, c: string)
    requires Holds(b, name) && CString(c) && |b| > K_MAX_LEN_NODE_NAME
    ensures Holds(Clip(c) + b[|Clip(c)|..], Overlay(Clip(c), name))
  {
    var k := Clip(c);
    var a := k + b[|k|..];
    forall i | |Overlay(k, name)| <= i < |a| ensures a[i] == NUL { assert a[i] == b[i]; }
    if |k| < |name| {
      assert a[..|name|] == k + name[|k|..];
    }
  }

  /** The walk does not end by itself: a slash behind the terminator keeps the flag set at the last
      component, unless that component is too long for a node name, and at every index past it. */
  ghost predicate Endless(path: string, behind: string) {
    && Rooted(path) && Slashed(behind)
    && var cs := Components(path); |cs[|cs| - 1]| <= K_MAX_LEN_NODE_NAME
  }

  /** The name in the buffer at lookup `k`: past the last component nothing is written any more. */
  ghost function NameAt(path: string, k: nat): string {
    var ns := Seen(Names(path), "");
    if k < |ns| then ns[k] else ns[|ns| - 1]
  }

  /** The flag after call `i`. */
  ghost function FlagAt(path: string, behind: string, i: nat): int {
    if i + 1 < |Names(path)| || Endless(path, behind) then 1 else 0
  }

  lemma {:induction false} GivenName(i: nat, path: string, behind: string, before: int)
    requires i == 0 ==> before == 0
    requires i < |Names(path)| || Endless(path, behind)
    ensures var g := Given(i, path, behind, before, K_MAX_LEN_NODE_NAME);
            && g.name == (if i < |Names(path)| then Clip(Names(path)[i]) else "")
            && g.flg == FlagAt(path, behind, i)
  {
    if Rooted(path) && i < |Components(path)| {
      var cs := Components(path);
      assert cs[i..][0] == cs[i];
      if |cs[i..]| == 2 { assert cs[i..][1] == cs[|cs| - 1]; }
      if |cs[i..]| == 1 { assert cs[i] == cs[|cs| - 1]; }
    }
  }

  lemma {:induction false} NameNext(path: string, i: nat)
    ensures NameAt(path, i) == Overlay(if i < |Names(path)| then Clip(Names(path)[i]) else "",
                                       if i == 0 then "" else NameAt(path, i - 1))
  {
    if i < |Names(path)| { SeenAt(Names(path), "", i); }
  }

  /** One call of the walk: the next component, if there is one, goes over the buffer. */
  method NextName(i: nat, path: string, behind: string, buf: array<char>, before: int) returns (flg: int)
    requires CString(path) && buf.Length == K_MAX_LEN_NODE_NAME + 1
    requires i < |Names(path)| || Endless(path, behind)
    requires Holds(buf[..], if i == 0 then "" else NameAt(path, i - 1)) && (i == 0 ==> before == 0)
    modifies buf
    ensures Holds(buf[..], NameAt(path, i)) && flg == FlagAt(path, behind, i)
  {
    ghost var c := if i < |Names(path)| then Names(path)[i] else "";
    if i < |Names(path)| { NamesCString(path, i); }
    OverlayHeld(buf[..], if i == 0 then "" else NameAt(path, i - 1), c);
    NameNext(path, i);
    GivenName(i, path, behind, before);
    var r;
    r, flg := Detach(i, path, behind, buf, before, K_MAX_LEN_NODE_NAME);
  }

  ghost predicate FoundAt(found: seq<string> -> bool, names: seq<string>, k: nat)
    requires k <= |names|
  {
    found(names[..k])
  }

  /** How far the walk is after a number of lookups. */
  datatype Progress = Underway | Opened | Refused

  ghost predicate NamedAt(path: string, names: seq<string>, k: nat)
    requires k < |names|
  {
    names[k] == NameAt(path, k)
  }

  /** The first `steps` lookups `sys_do_open` makes, where `found` says whether the last of a series of
      lookups succeeds. There is one for each component, in order, up to the first that fails; with a
      slash behind the terminator the last name is looked up again and again until that fails. */
  method Walk(path: string, behind: string, found: seq<string> -> bool, steps: nat)
    returns (names: seq<string>, at: Progress)
    requires CString(path)
    ensures |names| <= steps && forall k :: 0 <= k < |names| ==> NamedAt(path, names, k)
    ensures forall k :: 0 < k < |names| ==> FoundAt(found, names, k)
    ensures at.Refused? <==> names != [] && !found(names)
    ensures at.Opened? ==> |names| == |Names(path)| && !Endless(path, behind)
    ensures at.Underway? ==> |names| == steps && (steps < |Names(path)| || Endless(path, behind))
    ensures Endless(path, behind) || |names| <= |Names(path)|
  {
    var nodename := new char[K_MAX_LEN_NODE_NAME + 1](_ => NUL);
    var i := 0;
    var flg := NextName(i, path, behind, nodename, 0);
    i := i + 1;
    names := [];
    while flg == 1
      invariant 0 < i == |names| + 1 <= steps + 1 && Holds(nodename[..], NameAt(path, i - 1))
      invariant flg == FlagAt(path, behind, i - 1) && (i <= |Names(path)| || Endless(path, behind))
      invariant forall k :: 0 <= k < |names| ==> NamedAt(path, names, k)
      invariant forall k :: 0 < k <= |names| ==> FoundAt(found, names, k)
      decreases steps + 1 - i
    {
      if |names| == steps {
        assert names[..|names|] == names && (names != [] ==> FoundAt(found, names, |names|));
        return names, Underway;
      }
      var ok;
      names, ok := Looked(path, names, nodename, found);
      if !ok {
        return names, Refused;
      }
      flg := NextName(i, path, behind, nodename, flg);
      i := i + 1;
    }
    if |names| == steps {
      assert names[..|names|] == names && (names != [] ==> FoundAt(found, names, |names|));
      return names, Underway;
    }
    var ok;
    names, ok := Looked(path, names, nodename, found);
    at := if ok then Opened else Refused;
  }

  /** One more lookup, under the name in the buffer. */
  method Looked(path: string, names: seq<string>, buf: array<char>, found: seq<string> -> bool)
    returns (all: seq<string>, ok: bool)
    requires forall k :: 0 <= k < |names| ==> NamedAt(path, names, k)
    requires forall k :: 0 < k <= |names| ==> FoundAt(found, names, k)
    requires Holds(buf[..], NameAt(path, |names|))
    ensures |all| == |names| + 1 && ok == found(all)
    ensures forall k :: 0 <= k < |all| ==> NamedAt(path, all, k)
    ensures forall k :: 0 < k < |all| || (ok && k == |all|) ==> FoundAt(found, all, k)
  {
    HeldText(buf[..], NameAt(path, |names|));
    all := names + [Text(buf[..])];
    ok := found(all);
    forall k | 0 <= k < |all| ensures NamedAt(path, all, k) { assert k < |names| ==> NamedAt(path, names, k); }
    forall k | 0 < k < |all| ensures FoundAt(found, all, k) {
      assert all[..k] == names[..k] && FoundAt(found, names, k);
    }
    assert all[..|all|] == all;
  }

  /** The lookups are given the components themselves exactly when no component is longer than a
      node name and none is shorter than the one before it. */
  lemma {:induction false} SeenIsExact(cs: seq<string>)
    ensures Seen(cs, "") == cs <==> forall i :: 0 <= i < |cs| ==> FitsAt(cs, 0, i)
  {
    SeenExactFrom(cs, "");
    RisingEach(cs, 0);
  }

  /** Component `i` fits a node name and is no shorter than the one before it. */
  ghost predicate FitsAt(cs: seq<string>, least: nat, i: nat)
    requires i < |cs|
  {
    |cs[i]| <= K_MAX_LEN_NODE_NAME && (if i > 0 then |cs[i - 1]| else least) <= |cs[i]|
  }

  lemma {:induction false} RisingEach(cs: seq<string>, least: nat)
    ensures Rising(cs, least) <==> forall i :: 0 <= i < |cs| ==> FitsAt(cs, least, i)
  {
    if cs != [] {
      var t := cs[1..];
      RisingEach(t, |cs[0]|);
      forall i | 0 <= i < |t| ensures FitsAt(t, |cs[0]|, i) == FitsAt(cs, least, i + 1) {}
      forall i | 0 < i < |cs| ensures FitsAt(cs, least, i) == FitsAt(t, |cs[0]|, i - 1) {}
      assert FitsAt(cs, least, 0) <==> least <= |cs[0]| <= K_MAX_LEN_NODE_NAME;
    }
  }

  ghost predicate Rising(cs: seq<string>, least: nat) {
    cs == [] || (least <= |cs[0]| <= K_MAX_LEN_NODE_NAME && Rising(cs[1..], |cs[0]|))
  }

  lemma {:induction false} SeenExactFrom(cs: seq<string>, before: string)
    requires |before| <= K_MAX_LEN_NODE_NAME
    ensures Seen(cs, before) == cs <==> Rising(cs, |before|)
  {
    if cs != [] {
      var n := Overlay(Clip(cs[0]), before);
      assert n == cs[0] <==> |before| <= |cs[0]| <= K_MAX_LEN_NODE_NAME;
      SeenExactFrom(cs[1..], n);
      assert Seen(cs, before)[1..] == Seen(cs[1..], n);
    }
  }

  /** A shorter name after a longer one keeps the longer one's tail. */
  lemma {:induction false} StaleTail(a: string, b: string)
    requires |b| < |a| <= K_MAX_LEN_NODE_NAME
    ensures Seen([a, b], "") == [a, b + a[|b|..]]
  {
    SeenStep([a, b], "");
    assert [a, b][1..] == [b];
    SeenStep([b], a);
  }

  lemma {:induction false} SeenStep(cs: seq<string>, before: string)
    requires cs != [] && |cs[0]| <= K_MAX_LEN_NODE_NAME
    ensures Seen(cs, before) == [Overlay(cs[0], before)] + Seen(cs[1..], Overlay(cs[0], before))
  {
    assert Clip(cs[0]) == cs[0];
  }
}
