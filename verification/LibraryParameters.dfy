/** Options for the input and morphing libraries, given as key=value pairs separated by commas. */
module LibraryParameters {
  import opened Bytes

  datatype LibOption = LibOption(key: string, value: string)

  /** Where c occurs first, or the length if it does not. */
  function IndexOf(s: string, c: char): (i: nat)
    ensures i <= |s| && c !in s[..i] && (i < |s| ==> s[i] == c)
  {
    if s == "" then 0
    else if s[0] == c then 0
    else
      assert forall j :: 0 <= j < IndexOf(s[1..], c) ==> s[1..][j] == s[j + 1];
      1 + IndexOf(s[1..], c)
  }

  lemma IndexUnique(s: string, c: char, i: nat)
    requires i <= |s| && c !in s[..i] && (i < |s| ==> s[i] == c)
    ensures IndexOf(s, c) == i
  {
  }

  /** An option that can be written down: a key without '=' and a value without ',', neither of them empty. */
  predicate Writable(o: LibOption) {
    o.key != "" && '=' !in o.key && o.value != "" && ',' !in o.value
  }

  predicate AllWritable(opts: seq<LibOption>) {
    forall i :: 0 <= i < |opts| ==> Writable(opts[i])
  }

  function Pair(o: LibOption): string {
    o.key + "=" + o.value
  }

  /** The options joined with commas. */
  function Join(opts: seq<LibOption>): string {
    if opts == [] then ""
    else if |opts| == 1 then Pair(opts[0])
    else Pair(opts[0]) + "," + Join(opts[1..])
  }

  function KeyLength(s: string): nat {
    IndexOf(s, '=')
  }

  /** The length of the value behind the first key. */
  function ValueLength(s: string): nat
    requires KeyLength(s) < |s|
  {
    IndexOf(s[KeyLength(s) + 1..], ',')
  }

  /** What follows a first key of length e, a value of length v, and a comma, if there is one. */
  function Behind(s: string, e: nat, v: nat): string
    requires e < |s| && v <= |s| - e - 1
  {
    if e + 1 + v < |s| then s[e + 1 + v + 1..] else ""
  }

  /** The options in a string; None if it is not a list of options. */
  function Split(s: string): Option<seq<LibOption>>
    decreases |s|
  {
    if s == "" then Some([]) else
    var e := KeyLength(s);
    if e == 0 || e == |s| then None else
    var v := ValueLength(s);
    if v == 0 then None else Prepended([LibOption(s[..e], s[e + 1..][..v])], Split(Behind(s, e, v)))
  }

  lemma TakeApart(s: string, e: nat, v: nat)
    requires 0 < e < |s| && e == KeyLength(s) && v == ValueLength(s) > 0
    ensures var o, tail := LibOption(s[..e], s[e + 1..][..v]), Behind(s, e, v);
      Writable(o) && if e + 1 + v < |s| then s == Pair(o) + "," + tail else tail == "" && s == Pair(o)
  {
    var rest := s[e + 1..];
    assert s == s[..e] + "=" + rest;
    assert v < |rest| ==> rest == rest[..v] + "," + rest[v + 1..];
    assert v == |rest| ==> rest == rest[..v];
  }

  function Prepended(opts: seq<LibOption>, more: Option<seq<LibOption>>): Option<seq<LibOption>> {
    match more
    case None => None
    case Some(m) => Some(opts + m)
  }

  lemma NothingPrepended(more: Option<seq<LibOption>>)
    ensures Prepended([], more) == more
  {
    assert more.Some? ==> [] + more.value == more.value;
  }

  lemma NothingMore(opts: seq<LibOption>)
    ensures Prepended(opts, Split("")) == Some(opts)
    ensures Prepended(opts, None) == None
  {
    assert opts + [] == opts;
  }

  lemma FirstAndMore(opts: seq<LibOption>)
    requires opts != []
    ensures Prepended([opts[0]], Some(opts[1..])) == Some(opts)
  {
    assert opts == [opts[0]] + opts[1..];
  }

  lemma PrependedTwice(a: seq<LibOption>, b: seq<LibOption>, more: Option<seq<LibOption>>)
    ensures Prepended(a, Prepended(b, more)) == Prepended(a + b, more)
  {
    assert more.Some? ==> a + (b + more.value) == a + b + more.value;
  }

  /** Splitting takes off the first option. */
  lemma SplitFirst(o: LibOption, tail: string)
    requires Writable(o) && (tail == "" || tail[0] == ',')
    ensures var rest := if tail == "" then "" else tail[1..];
      Split(Pair(o) + tail) == Prepended([o], Split(rest))
  {
    hide Split, Prepended, Behind;
    var s := Pair(o) + tail;
    FirstParts(s, o, tail);
    SplitAt(s, |o.key|, |o.value|);
    assert s[|o.key| + 1..][..|o.value|] == o.value;
    assert s[..|o.key|] == o.key;
  }

  lemma SplitAt(s: string, e: nat, v: nat)
    requires 0 < e < |s| && e == KeyLength(s) && v == ValueLength(s) > 0
    ensures Split(s) == Prepended([LibOption(s[..e], s[e + 1..][..v])], Split(Behind(s, e, v)))
  {
    hide KeyLength, ValueLength, Behind, Prepended;
  }

  lemma FirstParts(s: string, o: LibOption, tail: string)
    requires Writable(o) && (tail == "" || tail[0] == ',') && s == Pair(o) + tail
    ensures KeyLength(s) == |o.key| < |s| && ValueLength(s) == |o.value|
    ensures Behind(s, |o.key|, |o.value|) == if tail == "" then "" else tail[1..]
  {
    hide IndexOf;
    assert s[..|o.key|] == o.key;
    IndexUnique(s, '=', |o.key|);
    var rest := s[|o.key| + 1..];
    assert rest == o.value + tail;
    assert rest[..|o.value|] == o.value;
    IndexUnique(rest, ',', |o.value|);
  }

  /** The string lists these options: they are joined with commas, and a comma may follow the last one. */
  predicate Lists(s: string, opts: seq<LibOption>) {
    AllWritable(opts) && (s == Join(opts) || (opts != [] && s == Join(opts) + ","))
  }

  /** A list of options is its first option, alone or with a comma and the list of the others behind it. */
  lemma ListsFirst(s: string, opts: seq<LibOption>) returns (tail: string)
    requires Lists(s, opts) && opts != []
    ensures s == Pair(opts[0]) + tail && (tail == "" || tail[0] == ',')
    ensures Writable(opts[0]) && Lists(if tail == "" then "" else tail[1..], opts[1..])
  {
    var o, more := opts[0], opts[1..];
    if more == [] {
      tail := if s == Join(opts) then "" else ",";
    } else {
      tail := if s == Join(opts) then "," + Join(more) else "," + (Join(more) + ",");
    }
  }

  lemma ListsMore(o: LibOption, tail: string, opts: seq<LibOption>)
    requires Writable(o) && Lists(tail, opts)
    ensures Lists(Pair(o) + "," + tail, [o] + opts)
    ensures tail == "" ==> Lists(Pair(o), [o] + opts)
  {
    var all := [o] + opts;
    assert all[1..] == opts;
    if opts != [] {
      assert Pair(o) + "," + (Join(opts) + ",") == Join(all) + ",";
      var rest := ListsFirst(tail, opts);
    }
  }

  /** Joined options are split again into the same options. */
  lemma {:induction false} SplitJoin(s: string, opts: seq<LibOption>)
    requires Lists(s, opts)
    ensures Split(s) == Some(opts)
    decreases |opts|
  {
    if opts != [] {
      hide Lists, Writable, Pair, Join, Split, Prepended;
      var tail := ListsFirst(s, opts);
      SplitJoin(if tail == "" then "" else tail[1..], opts[1..]);
      SplitFirst(opts[0], tail);
      FirstAndMore(opts);
    } else {
      OnlyEmpty(s);
    }
  }

  /** Whatever is accepted is a list of joined options. */
  lemma {:induction false} SplitSound(s: string)
    requires Split(s).Some?
    ensures Lists(s, Split(s).value)
    decreases |s|
  {
    hide Lists, Writable, Pair;
    if s == "" {
      EmptyList();
    } else {
      var e, v := KeyLength(s), ValueLength(s);
      TakeApart(s, e, v);
      var o, tail := LibOption(s[..e], s[e + 1..][..v]), Behind(s, e, v);
      SplitSound(tail);
      ListsMore(o, tail, Split(tail).value);
    }
  }

  lemma OnlyEmpty(s: string)
    requires Lists(s, [])
    ensures Split(s) == Some([])
  {
  }

  lemma EmptyList()
    ensures Lists("", [])
  {
  }

  /** The strings that are accepted, and what they mean. */
  lemma Accepted(s: string, opts: seq<LibOption>)
    ensures Split(s) == Some(opts) <==> Lists(s, opts)
  {
    if Split(s) == Some(opts) {
      SplitSound(s);
    } else if Lists(s, opts) {
      SplitJoin(s, opts);
    }
  }

  /** The search for the next separator, from position from on. */
  method Find(s: string, from: nat, c: char) returns (sepPos: nat)
    requires from <= |s|
    ensures sepPos == IndexOf(s[from..], c)
  {
    sepPos := 0;
    while from + sepPos < |s| && s[from + sepPos] != c
      invariant from + sepPos <= |s| && c !in s[from..][..sepPos]
    {
      assert s[from..][..sepPos + 1] == s[from..][..sepPos] + [s[from + sepPos]];
      sepPos := sepPos + 1;
    }
    IndexUnique(s[from..], c, sepPos);
  }

  /**
   * SplitLibraryParameters, for a string that is given. The number of options is handed back through a pointer, which
   * the function leaves alone for an empty string: `count` stays what it was before.
   */
  method SplitLibraryParameters(params: string, count0: nat) returns (ok: bool, count: nat, opts: seq<LibOption>)
    ensures ok <==> Split(params).Some?
    ensures ok ==> Some(opts) == Split(params)
    ensures count == if ok && params != "" then |opts| else count0
  {
    hide Prepended, Split;
    count, opts := count0, [];
    EmptySplit();
    if |params| == 0 {
      return true, count, opts;
    }
    var pos := 0;
    assert params[pos..] == params;
    NothingPrepended(Split(params));
    while pos < |params|
      invariant pos <= |params| && count == count0
      invariant Split(params) == Prepended(opts, Split(params[pos..]))
    {
      NothingMore(opts);
      var option, next;
      ok, option, next := NextOption(params, pos);
      if !ok {
        return false, count, opts;
      }
      PrependedTwice(opts, [option], Split(params[next..]));
      opts, pos := opts + [option], next;
    }
    assert params[pos..] == "";
    NothingMore(opts);
    ok, count := true, |opts|;
  }

  lemma EmptySplit()
    ensures Split("") == Some([])
  {
  }

  lemma NoOption(s: string)
    requires s != "" && (KeyLength(s) == 0 || KeyLength(s) == |s| || ValueLength(s) == 0)
    ensures Split(s) == None
  {
    hide KeyLength, ValueLength, Behind, Prepended;
  }

  lemma WhatFollows(params: string, pos: nat, e: nat, v: nat)
    requires pos + e + 1 + v <= |params|
    ensures var next := pos + e + 1 + v + if pos + e + 1 + v < |params| then 1 else 0;
      params[next..] == Behind(params[pos..], e, v)
  {
  }

  /** One turn of the loop: the option at position pos, and where the one after it starts. */
  method NextOption(params: string, pos: nat) returns (ok: bool, option: LibOption, next: nat)
    requires pos < |params|
    ensures !ok ==> Split(params[pos..]) == None
    ensures ok ==> pos < next <= |params| && Split(params[pos..]) == Prepended([option], Split(params[next..]))
  {
    hide Prepended, IndexOf, Split, Behind;
    ghost var s := params[pos..];
    ok, option, next := false, LibOption("", ""), pos;
    var e := Find(params, next, '=');
    if e == 0 || next + e == |params| {
      NoOption(s);
      return;
    }
    var key := params[next..next + e];
    next := next + e + 1;
    assert s[e + 1..] == params[next..];
    var v := Find(params, next, ',');
    if v == 0 {
      NoOption(s);
      return;
    }
    option := LibOption(key, params[next..next + v]);
    next := next + v;
    if next < |params| {
      next := next + 1;
    }
    SplitAt(s, e, v);
    assert option == LibOption(s[..e], s[e + 1..][..v]);
    WhatFollows(params, pos, e, v);
    ok := true;
  }
}
