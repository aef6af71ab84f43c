/** The macro table and the fixed-point textual expander of the BitLang VM
    (BitFuckDLL.cpp, `define_macro` and `expand_macros`). */
module Macros {
  import opened Wrappers

  /** One entry of the table: a name and the text that replaces it. */
  datatype Macro = Macro(name: string, body: string)

  /** The table is kept as a sequence in a fixed order; the original keeps it
      in a hash map whose iteration order is unspecified. */
  type Table = seq<Macro>

  // ---------------------------------------------------------------------
  // Table
  // ---------------------------------------------------------------------

  /** The names stored in the table. */
  function Names(t: Table): set<string> {
    if |t| == 0 then {} else {t[0].name} + Names(t[1..])
  }

  /** No name appears twice, as in a map keyed by name. */
  predicate DistinctNames(t: Table) {
    |t| == 0 || (t[0].name !in Names(t[1..]) && DistinctNames(t[1..]))
  }

  /** The replacement stored for `name`, if any. */
  function Lookup(t: Table, name: string): Option<string> {
    if |t| == 0 then None
    else if t[0].name == name then Some(t[0].body)
    else Lookup(t[1..], name)
  }

  /** `Lookup` answers exactly for the names stored in the table, and with
      the body stored beside the name. */
  lemma {:induction false} LookupFindsEntries(t: Table, name: string)
    ensures Lookup(t, name).Some? <==> name in Names(t)
    ensures DistinctNames(t) ==>
      forall i :: 0 <= i < |t| && t[i].name == name ==> Lookup(t, name) == Some(t[i].body)
  {
    if |t| > 0 {
      LookupFindsEntries(t[1..], name);
      if DistinctNames(t) {
        forall i | 0 <= i < |t| && t[i].name == name
          ensures Lookup(t, name) == Some(t[i].body)
        {
          if i > 0 {
            assert t[1..][i - 1] == t[i];
            NameOfEntry(t[1..], i - 1);
          }
        }
      }
    }
  }

  /** Every entry's name is among the table's names. */
  lemma {:induction false} NameOfEntry(t: Table, i: int)
    requires 0 <= i < |t|
    ensures t[i].name in Names(t)
  {
    if i > 0 {
      assert t[1..][i - 1] == t[i];
      NameOfEntry(t[1..], i - 1);
    }
  }

  /** Stores `body` under `name`, as `macros[name] = code` does: an existing
      entry is overwritten in place, otherwise one entry is appended. */
  function Define(t: Table, name: string, body: string): (r: Table)
    ensures Lookup(r, name) == Some(body)
    ensures forall n :: n != name ==> Lookup(r, n) == Lookup(t, n)
    ensures Names(r) == Names(t) + {name}
    ensures DistinctNames(t) ==> DistinctNames(r)
    ensures |r| == if name in Names(t) then |t| else |t| + 1
  {
    if |t| == 0 then [Macro(name, body)]
    else if t[0].name == name then
      var r := [Macro(name, body)] + t[1..];
      assert r[1..] == t[1..];
      r
    else
      var rest := Define(t[1..], name, body);
      var r := [t[0]] + rest;
      assert r[1..] == rest;
      r
  }

  // ---------------------------------------------------------------------
  // Substring search and single replacement
  // ---------------------------------------------------------------------

  /** `pat` occurs in `text` starting at offset `k`. */
  predicate OccursAt(text: string, pat: string, k: int) {
    0 <= k && k + |pat| <= |text| && text[k..k + |pat|] == pat
  }

  /** `pat` occurs somewhere in `text`. */
  predicate Occurs(text: string, pat: string) {
    exists k :: 0 <= k <= |text| && OccursAt(text, pat, k)
  }

  /** The lowest offset at or after `from` where `pat` occurs, as
      `std::string::find` computes it; the empty pattern occurs at `from`
      whenever `from <= |text|`. */
  function FindFrom(text: string, pat: string, from: nat): (r: Option<nat>)
    decreases |text| - from
    ensures r.Some? ==> from <= r.value && OccursAt(text, pat, r.value)
    ensures r.Some? ==> forall k :: from <= k < r.value ==> !OccursAt(text, pat, k)
    ensures r.None? ==> forall k :: from <= k ==> !OccursAt(text, pat, k)
  {
    if from + |pat| > |text| then None
    else if text[from..from + |pat|] == pat then Some(from)
    else FindFrom(text, pat, from + 1)
  }

  /** The first occurrence of `pat` in `text`. */
  function Find(text: string, pat: string): (r: Option<nat>)
    ensures r.Some? <==> Occurs(text, pat)
    ensures r.Some? ==> OccursAt(text, pat, r.value)
    ensures r.Some? ==> forall k :: 0 <= k < r.value ==> !OccursAt(text, pat, k)
  {
    FindFrom(text, pat, 0)
  }

  /** One step of `expand_macros`: the first occurrence of `m.name` is
      replaced by `m.body`; `hit` tells whether there was one. */
  function ReplaceFirst(text: string, m: Macro): (r: (string, bool))
    ensures r.1 <==> Occurs(text, m.name)
    ensures !r.1 ==> r.0 == text
  {
    match Find(text, m.name)
    case None => (text, false)
    case Some(k) => (text[..k] + m.body + text[k + |m.name|..], true)
  }

  // ---------------------------------------------------------------------
  // Expansion to a fixed point
  // ---------------------------------------------------------------------

  /** No name of the table occurs in `text`: expansion has nothing to do. */
  predicate FixedPoint(text: string, t: Table) {
    |t| == 0 || (!Occurs(text, t[0].name) && FixedPoint(text, t[1..]))
  }

  /** `FixedPoint` says exactly that no entry's name occurs in the text. */
  lemma {:induction false} FixedPointMeansNoName(text: string, t: Table)
    ensures FixedPoint(text, t) <==> forall i :: 0 <= i < |t| ==> !Occurs(text, t[i].name)
  {
    if |t| > 0 {
      FixedPointMeansNoName(text, t[1..]);
      assert forall i :: 1 <= i < |t| ==> t[i] == t[1..][i - 1];
    }
  }

  /** One pass of the outer `while`: every entry, in table order, replaces
      its first occurrence in the text left by the entries before it. The
      flag is the source's `changed`. */
  function Pass(text: string, t: Table): (r: (string, bool))
    ensures !r.1 ==> r.0 == text
    ensures !r.1 <==> FixedPoint(text, t)
    decreases |t|
  {
    if |t| == 0 then (text, false)
    else
      var (t1, hit) := ReplaceFirst(text, t[0]);
      var (t2, changed) := Pass(t1, t[1..]);
      (t2, hit || changed)
  }

  /** A text holding the name of some entry is not a fixed point. */
  lemma EntryBlocksFixedPoint(text: string, t: Table, i: int)
    requires 0 <= i < |t| && Occurs(text, t[i].name)
    ensures !FixedPoint(text, t)
  {
    FixedPointMeansNoName(text, t);
  }

  /** `expand_macros` with at most `fuel` passes: `None` when the text has
      not settled within them (the original loops forever in that case). */
  function Expand(text: string, t: Table, fuel: nat): (r: Option<string>)
    ensures r.Some? ==> FixedPoint(r.value, t)
    ensures fuel > 0 && FixedPoint(text, t) ==> r == Some(text)
    decreases fuel
  {
    if fuel == 0 then None
    else
      var (next, changed) := Pass(text, t);
      if !changed then Some(text) else Expand(next, t, fuel - 1)
  }

  /** Expanding an expanded text again gives it back unchanged. */
  lemma ExpandIdempotent(text: string, t: Table, fuel: nat, out: string, fuel': nat)
    requires Expand(text, t, fuel) == Some(out)
    requires fuel' > 0
    ensures Expand(out, t, fuel') == Some(out)
  {
  }

  /** Once expansion settles, more fuel gives the same text: the answer
      does not depend on the bound. */
  lemma {:induction false} ExpandFuelMonotone(text: string, t: Table, fuel: nat, more: nat)
    requires Expand(text, t, fuel).Some?
    requires fuel <= more
    ensures Expand(text, t, more) == Expand(text, t, fuel)
    decreases fuel
  {
    var (next, changed) := Pass(text, t);
    if changed {
      ExpandFuelMonotone(next, t, fuel - 1, more - 1);
    }
  }

  /** The empty pattern occurs at offset 0 of every text. */
  lemma EmptyOccurs(text: string)
    ensures Occurs(text, "")
  {
    assert OccursAt(text, "", 0);
  }

  /** An entry with the empty name never lets expansion settle, because
      every search for it succeeds at offset 0. */
  lemma {:induction false} EmptyNameDiverges(text: string, t: Table, fuel: nat, i: int)
    requires 0 <= i < |t| && t[i].name == ""
    ensures Expand(text, t, fuel) == None
    decreases fuel
  {
    if fuel > 0 {
      EmptyOccurs(text);
      EntryBlocksFixedPoint(text, t, i);
      EmptyNameDiverges(Pass(text, t).0, t, fuel - 1, i);
      ExpandUnfold(text, t, fuel);
    }
  }

  /** One pass over a single macro whose body contains its name at `kb`,
      applied to a text holding the name at `k`, changes the text and leaves
      the name in it at the returned offset. */
  lemma SelfReferenceStep(text: string, m: Macro, kb: int, k: int) returns (k': int)
    requires OccursAt(m.body, m.name, kb)
    requires OccursAt(text, m.name, k)
    ensures Pass(text, [m]).1
    ensures OccursAt(Pass(text, [m]).0, m.name, k')
  {
    assert Occurs(text, m.name) by { assert 0 <= k <= |text|; }
    var f := ReplaceFirstSplices(text, m);
    PassSingle(text, m);
    SpliceKeeps(text[..f], m.body, text[f + |m.name|..], m.name, kb);
    k' := f + kb;
  }

  /** When the name occurs, the single replacement keeps the text before
      and after its first occurrence and puts the body in between. */
  lemma ReplaceFirstSplices(text: string, m: Macro) returns (f: nat)
    requires Occurs(text, m.name)
    ensures OccursAt(text, m.name, f)
    ensures forall j :: 0 <= j < f ==> !OccursAt(text, m.name, j)
    ensures ReplaceFirst(text, m) == (text[..f] + m.body + text[f + |m.name|..], true)
  {
    f := Find(text, m.name).value;
  }

  /** An occurrence inside a spliced-in body survives the splice. */
  lemma SpliceKeeps(pre: string, body: string, post: string, pat: string, kb: int)
    requires OccursAt(body, pat, kb)
    ensures OccursAt(pre + body + post, pat, |pre| + kb)
  {
    var s := pre + body + post;
    assert s[|pre| + kb..|pre| + kb + |pat|] == body[kb..kb + |pat|];
  }

  /** A pass over a one-entry table is that entry's single replacement. */
  lemma PassSingle(text: string, m: Macro)
    ensures Pass(text, [m]) == ReplaceFirst(text, m)
  {
    assert [m][1..] == [];
  }

  /** The recursion behind `SelfReferenceDiverges`, with the occurrences
      named. */
  lemma {:induction false} SelfReferenceLoops(text: string, m: Macro, fuel: nat, kb: int, k: int)
    requires OccursAt(m.body, m.name, kb)
    requires OccursAt(text, m.name, k)
    ensures Expand(text, [m], fuel) == None
    decreases fuel
  {
    if fuel > 0 {
      var k' := SelfReferenceStep(text, m, kb, k);
      SelfReferenceLoops(Pass(text, [m]).0, m, fuel - 1, kb, k');
      ExpandUnfold(text, [m], fuel);
    }
  }

  /** A single macro whose body mentions its own name never settles once its
      name is in the text. */
  lemma SelfReferenceDiverges(text: string, m: Macro, fuel: nat)
    requires Occurs(m.body, m.name)
    requires Occurs(text, m.name)
    ensures Expand(text, [m], fuel) == None
  {
    var kb :| 0 <= kb <= |m.body| && OccursAt(m.body, m.name, kb);
    var k :| 0 <= k <= |text| && OccursAt(text, m.name, k);
    SelfReferenceLoops(text, m, fuel, kb, k);
  }

  /** A pass that changes the text hands the remaining fuel to the next pass. */
  lemma ExpandUnfold(text: string, t: Table, fuel: nat)
    requires fuel > 0 && Pass(text, t).1
    ensures Expand(text, t, fuel) == Expand(Pass(text, t).0, t, fuel - 1)
  {
  }
}
