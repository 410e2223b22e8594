/** The parameter vector of a request: a growing array of entries ended by a null pointer. */
module Params {
  import opened Bytes
  import opened Pairs

  class ParamVector {
    var vec: array<Option<seq<byte>>>   // None is the null pointer
    var cur: nat                        // the position of the terminator

    ghost predicate Valid()
      reads this, vec
    {
      && cur < vec.Length
      && vec[cur] == None
      && forall i | 0 <= i < cur :: vec[i].Some?
    }

    /** The entries before the terminator. */
    ghost function Contents(): (s: seq<seq<byte>>)
      reads this, vec
      requires Valid()
      ensures |s| == cur
    {
      seq(cur, i requires 0 <= i < cur && Valid() reads this, vec => vec[i].value)
    }

    /** `NewParams`. */
    constructor (length: nat)
      requires length > 0
      ensures Valid() && fresh(vec) && Contents() == [] && vec.Length == length
    {
      vec := new Option<seq<byte>>[length];
      cur := 0;
      new;
      vec[0] := None;
    }

    /** `PutParam`: the vector doubles as soon as no room is left for the terminator. */
    method Put(nameValue: seq<byte>)
      requires Valid()
      modifies this, vec
      ensures Valid() && (vec == old(vec) || fresh(vec))
      ensures Contents() == old(Contents()) + [nameValue]
      ensures vec.Length == if old(cur) + 1 == old(vec.Length) then 2 * old(vec.Length) else old(vec.Length)
    {
      ghost var before := Contents();
      vec[cur] := Some(nameValue);
      cur := cur + 1;
      var size := cur;
      if size >= vec.Length {
        var grown := new Option<seq<byte>>[vec.Length * 2];
        forall i | 0 <= i < vec.Length {
          grown[i] := vec[i];
        }
        vec := grown;
        cur := size;
      }
      vec[cur] := None;
      assert forall i | 0 <= i < |before| :: vec[i] == Some(before[i]);
    }

    /** `FCGX_GetParam` on the vector: walks to the terminator, comparing the name and the `=` behind it. The result
        is what follows the `=`; as a C string it ends at its first NUL. */
    method GetParam(name: seq<byte>) returns (value: Option<seq<byte>>)
      requires Valid() && 0 !in name
      ensures value == Lookup(Contents(), name)
    {
      ghost var entries := Contents();
      var len := |name|;
      var p := 0;
      while vec[p] != None
        invariant p <= cur
        invariant Lookup(entries, name) == Lookup(entries[p..], name)
        decreases cur - p
      {
        var entry := vec[p].value;
        assert entries[p..][0] == entry && entries[p..][1..] == entries[p + 1..];
        if len < |entry| && entry[..len] == name && entry[len] == EQUALS {
          return Some(entry[len + 1..]);
        }
        p := p + 1;
      }
      return None;
    }
  }

  /** An entry of the form `name=...`. */
  predicate Matches(entry: seq<byte>, name: seq<byte>) {
    |name| < |entry| && entry[..|name|] == name && entry[|name|] == EQUALS
  }

  /** What follows `name=` in the first such entry. */
  function Lookup(entries: seq<seq<byte>>, name: seq<byte>): Option<seq<byte>> {
    if entries == [] then None
    else if Matches(entries[0], name) then Some(entries[0][|name| + 1..])
    else Lookup(entries[1..], name)
  }

  /** The first binding of a name. */
  function Binding(ps: seq<Pair>, name: seq<byte>): Option<seq<byte>> {
    if ps == [] then None
    else if ps[0].name == name then Some(ps[0].value)
    else Binding(ps[1..], name)
  }

  lemma MatchesEntry(p: Pair, name: seq<byte>)
    requires EQUALS !in p.name && EQUALS !in name
    ensures var e := Entry(p);
            && (Matches(e, name) <==> p.name == name)
            && (p.name == name ==> e[|name| + 1..] == p.value)
  {
    var e := Entry(p);
    assert e[|p.name|] == EQUALS;
    assert forall i | 0 <= i < |p.name| :: e[i] == p.name[i];
    assert e[..|p.name|] == p.name;
    assert |p.name| < |name| < |e| ==> e[..|name|][|p.name|] == EQUALS;
  }

  /** Looking a name up in the environment finds its first binding among the pairs received. */
  lemma {:induction false} LookupFindsBinding(ps: seq<Pair>, name: seq<byte>)
    requires EQUALS !in name && forall p | p in ps :: EQUALS !in p.name
    ensures Lookup(Entries(ps), name) == Binding(ps, name)
  {
    if ps != [] {
      MatchesEntry(ps[0], name);
      assert Entries(ps)[1..] == Entries(ps[1..]);
      LookupFindsBinding(ps[1..], name);
    }
  }

  /** An entry as a lookup sees it: the name ends at the first `=`. */
  function Reread(p: Pair): (q: Pair)
    ensures EQUALS !in q.name && Entry(q) == Entry(p)
    ensures EQUALS !in p.name ==> q == p
    ensures EQUALS in p.name ==> |q.name| < |p.name|
    decreases |p.name|
  {
    if p.name == [] then p
    else if p.name[0] == EQUALS then
      var q := Pair([], p.name[1..] + [EQUALS] + p.value);
      assert Entry(q) == Entry(p);
      q
    else
      var q := Reread(Pair(p.name[1..], p.value));
      assert Entry(Pair([p.name[0]] + q.name, q.value)) == [p.name[0]] + Entry(q);
      assert Entry(p) == [p.name[0]] + Entry(Pair(p.name[1..], p.value));
      Pair([p.name[0]] + q.name, q.value)
  }

  function RereadAll(ps: seq<Pair>): (qs: seq<Pair>)
    ensures |qs| == |ps| && forall i | 0 <= i < |ps| :: qs[i] == Reread(ps[i])
  {
    seq(|ps|, i requires 0 <= i < |ps| => Reread(ps[i]))
  }

  /** Whatever the names sent, a lookup finds the first binding among the pairs cut at the first `=` of their entry. */
  lemma LookupRereads(ps: seq<Pair>, name: seq<byte>)
    requires EQUALS !in name
    ensures Lookup(Entries(ps), name) == Binding(RereadAll(ps), name)
  {
    assert Entries(ps) == Entries(RereadAll(ps));
    LookupFindsBinding(RereadAll(ps), name);
  }

  lemma {:induction false} BindingAt(ps: seq<Pair>, name: seq<byte>, i: nat)
    requires i < |ps| && ps[i].name == name && forall j | 0 <= j < i :: ps[j].name != name
    ensures Binding(ps, name) == Some(ps[i].value)
  {
    if i > 0 {
      assert ps[0].name != name;
      BindingAt(ps[1..], name, i - 1);
    }
  }

  /** Where the first binding of a name is, if there is one. */
  lemma {:induction false} BindingFound(ps: seq<Pair>, name: seq<byte>) returns (i: nat)
    ensures i <= |ps| && forall j | 0 <= j < i :: ps[j].name != name
    ensures i < |ps| ==> ps[i].name == name
    ensures Binding(ps, name) == if i < |ps| then Some(ps[i].value) else None
  {
    i := 0;
    if ps != [] && ps[0].name != name {
      i := BindingFound(ps[1..], name);
      i := i + 1;
      assert forall j | 0 < j < i :: ps[j] == ps[1..][j - 1];
    }
  }

  /** A pair whose name has an `=` does no harm when the name in front of it is bound earlier, or happens to be bound
      later to just what the entry reads as. */
  predicate Harmless(ps: seq<Pair>, i: nat)
    requires i < |ps|
  {
    var q := Reread(ps[i]);
    (exists j | 0 <= j < i :: Reread(ps[j]).name == q.name) || Binding(ps, q.name) == Some(q.value)
  }

  /** Every lookup of a name without `=` finds the first binding among the pairs sent exactly when every pair whose
      name has an `=` is harmless. */
  lemma PlainLookupFaithfulIff(ps: seq<Pair>)
    ensures (forall name: seq<byte> | EQUALS !in name :: Lookup(Entries(ps), name) == Binding(ps, name))
            <==> forall i | 0 <= i < |ps| && EQUALS in ps[i].name :: Harmless(ps, i)
  {
    if forall name: seq<byte> | EQUALS !in name :: Lookup(Entries(ps), name) == Binding(ps, name) {
      forall i | 0 <= i < |ps| && EQUALS in ps[i].name
        ensures Harmless(ps, i)
      {
        var q := Reread(ps[i]);
        LookupRereads(ps, q.name);
        if forall j | 0 <= j < i :: Reread(ps[j]).name != q.name {
          BindingAt(RereadAll(ps), q.name, i);
        }
      }
    }
    if forall i | 0 <= i < |ps| && EQUALS in ps[i].name :: Harmless(ps, i) {
      forall name: seq<byte> | EQUALS !in name
        ensures Lookup(Entries(ps), name) == Binding(ps, name)
      {
        HarmlessLookup(ps, name);
      }
    }
  }

  lemma HarmlessLookup(ps: seq<Pair>, name: seq<byte>)
    requires EQUALS !in name && forall i | 0 <= i < |ps| && EQUALS in ps[i].name :: Harmless(ps, i)
    ensures Lookup(Entries(ps), name) == Binding(ps, name)
  {
    hide Reread, Binding, Lookup, Entries;
    LookupRereads(ps, name);
    var i := BindingFound(RereadAll(ps), name);
    var k := BindingFound(ps, name);
    assert forall j | 0 <= j < i :: Reread(ps[j]).name != name;
    assert i < |ps| ==> Reread(ps[i]).name == name;
    if i < |ps| && EQUALS in ps[i].name {
      assert Harmless(ps, i);
    }
    assert k < |ps| ==> Reread(ps[k]) == ps[k];
  }

  // ---------------------------------------------------------------- lookups of any name

  lemma {:induction false} LookupFound(entries: seq<seq<byte>>, name: seq<byte>) returns (i: nat)
    ensures i <= |entries| && forall j | 0 <= j < i :: !Matches(entries[j], name)
    ensures i < |entries| ==> Matches(entries[i], name)
    ensures Lookup(entries, name) == if i < |entries| then Some(entries[i][|name| + 1..]) else None
  {
    i := 0;
    if entries != [] && !Matches(entries[0], name) {
      i := LookupFound(entries[1..], name);
      i := i + 1;
      assert forall j | 0 < j < i :: entries[j] == entries[1..][j - 1];
    }
  }

  /** Reading the entry of a pair with its name ended by the `=` at `q` does no harm when an earlier entry reads the
      same way, or when that is how the name in front of the `=` is bound. */
  predicate HarmlessAt(ps: seq<Pair>, i: nat, q: nat)
    requires i < |ps| && q < |Entry(ps[i])|
  {
    var e := Entry(ps[i]);
    || (exists j | 0 <= j < i :: Matches(Entry(ps[j]), e[..q]))
    || Binding(ps, e[..q]) == Some(e[q + 1..])
  }

  /** The ways to read an entry: at every `=` that a C string can have in front of it as its name. */
  predicate Readable(ps: seq<Pair>, i: nat, q: nat) {
    i < |ps| && q < |Entry(ps[i])| && Entry(ps[i])[q] == EQUALS && 0 !in Entry(ps[i])[..q]
  }

  /** Every lookup, of whatever name, finds the first binding among the pairs sent exactly when every way to read an
      entry is harmless. */
  lemma LookupFaithfulIff(ps: seq<Pair>)
    ensures (forall name: seq<byte> | 0 !in name :: Lookup(Entries(ps), name) == Binding(ps, name))
            <==> forall i, q | Readable(ps, i, q) :: HarmlessAt(ps, i, q)
  {
    if forall name: seq<byte> | 0 !in name :: Lookup(Entries(ps), name) == Binding(ps, name) {
      forall i, q | Readable(ps, i, q)
        ensures HarmlessAt(ps, i, q)
      {
        FaithfulHarmless(ps, i, q);
      }
    }
    if forall i, q | Readable(ps, i, q) :: HarmlessAt(ps, i, q) {
      forall name: seq<byte> | 0 !in name
        ensures Lookup(Entries(ps), name) == Binding(ps, name)
      {
        HarmlessFaithful(ps, name);
      }
    }
  }

  lemma FaithfulHarmless(ps: seq<Pair>, i: nat, q: nat)
    requires Readable(ps, i, q)
    requires Lookup(Entries(ps), Entry(ps[i])[..q]) == Binding(ps, Entry(ps[i])[..q])
    ensures HarmlessAt(ps, i, q)
  {
    hide Lookup, Binding, Entry;
    var e := Entry(ps[i]);
    var k := LookupFound(Entries(ps), e[..q]);
    assert Matches(e, e[..q]);
    assert Entries(ps)[i] == e;
    if k < i {
      assert Matches(Entry(ps[k]), e[..q]);
    }
  }

  lemma HarmlessFaithful(ps: seq<Pair>, name: seq<byte>)
    requires 0 !in name && forall i, q | Readable(ps, i, q) :: HarmlessAt(ps, i, q)
    ensures Lookup(Entries(ps), name) == Binding(ps, name)
  {
    hide Lookup, Binding, Entry;
    var i := LookupFound(Entries(ps), name);
    var k := BindingFound(ps, name);
    if i < |ps| {
      assert Entries(ps)[i] == Entry(ps[i]);
      assert Readable(ps, i, |name|);
      assert forall j | 0 <= j < i :: Entries(ps)[j] == Entry(ps[j]);
    } else if k < |ps| {
      assert Entries(ps)[k] == Entry(ps[k]);
      OwnNameMatches(ps[k]);
    }
  }

  lemma OwnNameMatches(p: Pair)
    ensures Matches(Entry(p), p.name)
  {
    assert Entry(p)[..|p.name|] == p.name && Entry(p)[|p.name|] == EQUALS;
  }

  /** A pair without any `=` in its name is misread too, by a lookup of a name that has one. */
  lemma EqualsInValue(name: seq<byte>, value: seq<byte>, rest: seq<byte>)
    ensures var p := Pair(name, value + [EQUALS] + rest);
            var asked := name + [EQUALS] + value;
            Lookup([Entry(p)], asked) == Some(rest) && Binding([p], asked) == None
  {
    var p, asked := Pair(name, value + [EQUALS] + rest), name + [EQUALS] + value;
    assert Entry(p) == asked + ([EQUALS] + rest);
    assert Entry(p)[..|asked|] == asked && Entry(p)[|asked| + 1..] == rest;
    assert [p][1..] == [] && [Entry(p)][0] == Entry(p);
  }
}
