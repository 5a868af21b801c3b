/**
 * The property-name codec between the card and the CRM's custom objects:
 * `formatAppObjectProperties` puts the app prefix on every property name
 * before a write, `stripAppObjectPrefix` takes it off after a read.
 *
 * An object is its list of (name, value) properties in insertion order, so
 * that "the later property wins" on a name clash can be stated.
 */
module PrefixCodec {
  import opened Wrappers
  import opened Strings

  /** A JavaScript object with string keys: its properties in insertion order. */
  type Record<V> = seq<(string, V)>

  predicate DistinctKeys<V>(r: Record<V>) {
    forall i, j :: 0 <= i < j < |r| ==> r[i].0 != r[j].0
  }

  /** `obj[k]`: the value stored under `k`, if any (the first match; keys are distinct). */
  function Get<V>(r: Record<V>, k: string): (v: Option<V>)
    ensures v.None? <==> forall i :: 0 <= i < |r| ==> r[i].0 != k
    ensures v.Some? ==> exists i :: 0 <= i < |r| && r[i] == (k, v.value) && forall j :: 0 <= j < i ==> r[j].0 != k
  {
    if |r| == 0 then None
    else if r[0].0 == k then Some(r[0].1)
    else
      assert forall i :: 1 <= i < |r| ==> r[i] == r[1..][i - 1];
      Get(r[1..], k)
  }

  /**
   * `obj[k] = v`: a property that already exists keeps its place and takes
   * the new value; a new property is appended.
   */
  function Assign<V>(r: Record<V>, k: string, v: V): (r': Record<V>)
    requires DistinctKeys(r)
    ensures DistinctKeys(r')
    ensures forall i :: 0 <= i < |r'| ==> r'[i].0 == k || r'[i] in r
    ensures (forall i :: 0 <= i < |r| ==> r[i].0 != k) ==> r' == r + [(k, v)]
  {
    if |r| == 0 then [(k, v)]
    else if r[0].0 == k then
      assert forall i :: 1 <= i < |r| ==> r[1..][i - 1] == r[i];
      [(k, v)] + r[1..]
    else
      var rest := Assign(r[1..], k, v);
      assert forall i :: 1 <= i < |r| ==> r[1..][i - 1] == r[i];
      assert forall x :: x in r[1..] ==> x in r;
      [r[0]] + rest
  }

  /**
   * Assigning to a key the object already has changes that property's value
   * in place: same position, every other property untouched.
   */
  lemma {:induction false} AssignInPlace<V>(r: Record<V>, k: string, v: V, i: int)
    requires DistinctKeys(r) && 0 <= i < |r| && r[i].0 == k
    ensures Assign(r, k, v) == r[i := (k, v)]
    decreases |r|
  {
    assert forall j :: 1 <= j < |r| ==> r[1..][j - 1] == r[j];
    if i == 0 {
      assert r[0 := (k, v)] == [(k, v)] + r[1..];
    } else {
      AssignInPlace(r[1..], k, v, i - 1);
      UpdateBehindHead(r, i, (k, v));
    }
  }

  /** Updating a sequence behind its head is updating its tail. */
  lemma UpdateBehindHead<T>(s: seq<T>, i: int, x: T)
    requires 1 <= i < |s|
    ensures [s[0]] + s[1..][i - 1 := x] == s[i := x]
  {
    var a, b := [s[0]] + s[1..][i - 1 := x], s[i := x];
    assert forall j :: 0 <= j < |a| ==> a[j] == b[j];
  }

  /** After `obj[k] = v`, `k` holds `v` and every other key holds what it held. */
  lemma {:induction false} AssignGet<V>(r: Record<V>, k: string, v: V, k': string)
    requires DistinctKeys(r)
    ensures Get(Assign(r, k, v), k') == if k' == k then Some(v) else Get(r, k')
    decreases |r|
  {
    if |r| > 0 && r[0].0 != k {
      assert forall i :: 1 <= i < |r| ==> r[1..][i - 1] == r[i];
      AssignGet(r[1..], k, v, k');
      assert Assign(r, k, v)[1..] == Assign(r[1..], k, v);
    }
  }

  /** `formatAppObjectProperties`' renaming: names already starting with the prefix are kept. */
  function FormatKey(prefix: string, k: string): (r: string)
    ensures StartsWith(r, prefix)
    ensures StartsWith(k, prefix) ==> r == k
    ensures !StartsWith(k, prefix) ==> r == prefix + "_" + k
  {
    if StartsWith(k, prefix) then k
    else
      assert (prefix + "_" + k)[..|prefix|] == prefix;
      prefix + "_" + k
  }

  /** `stripAppObjectPrefix`' renaming: the first `prefix_` is removed from names starting with it. */
  function StripKey(prefix: string, k: string): (r: string)
    ensures StartsWith(k, prefix + "_") ==> r == k[|prefix| + 1..]
    ensures !StartsWith(k, prefix + "_") ==> r == k
  {
    if StartsWith(k, prefix + "_") then ReplaceFirst(k, prefix + "_", "") else k
  }

  /** The two renamings as function values, so that the copy below is written once. */
  function Formatter(prefix: string): string -> string {
    k => FormatKey(prefix, k)
  }

  function Stripper(prefix: string): string -> string {
    k => StripKey(prefix, k)
  }

  /** Copies the properties of `p` in order into a new object, renaming each key by `f`. */
  function Rekey<V>(p: Record<V>, f: string -> string): (r: Record<V>)
    ensures DistinctKeys(r)
  {
    if |p| == 0 then []
    else Assign(Rekey(p[..|p| - 1], f), f(p[|p| - 1].0), p[|p| - 1].1)
  }

  function FormatAppObjectProperties<V>(properties: Record<V>, appPrefix: string): (r: Record<V>)
    ensures DistinctKeys(r)
    ensures forall i :: 0 <= i < |r| ==> StartsWith(r[i].0, appPrefix)
    ensures forall j :: 0 <= j < |properties| ==> Get(r, FormatKey(appPrefix, properties[j].0)).Some?
  {
    RekeyKeys(properties, Formatter(appPrefix));
    RekeyCoversKeys(properties, Formatter(appPrefix));
    Rekey(properties, Formatter(appPrefix))
  }

  function StripAppObjectPrefix<V>(properties: Record<V>, appPrefix: string): (r: Record<V>)
    ensures DistinctKeys(r)
    ensures forall i :: 0 <= i < |r| ==> exists j :: 0 <= j < |properties| && r[i].0 == StripKey(appPrefix, properties[j].0)
    ensures forall j :: 0 <= j < |properties| ==> Get(r, StripKey(appPrefix, properties[j].0)).Some?
  {
    RekeyKeys(properties, Stripper(appPrefix));
    RekeyCoversKeys(properties, Stripper(appPrefix));
    Rekey(properties, Stripper(appPrefix))
  }

  // ---------------------------------------------------------------------------
  // Which value a renamed key ends up with

  /** Position `i` is the last property of `p` whose key `f` renames to `k`. */
  predicate LastRenamedTo<V>(p: Record<V>, f: string -> string, k: string, i: int) {
    0 <= i < |p| && f(p[i].0) == k && forall j :: i < j < |p| ==> f(p[j].0) != k
  }

  /** Every key of the copy is the renaming of some key of the original. */
  lemma {:induction false} RekeyKeys<V>(p: Record<V>, f: string -> string)
    ensures forall i :: 0 <= i < |Rekey(p, f)| ==> exists j :: 0 <= j < |p| && Rekey(p, f)[i].0 == f(p[j].0)
    decreases |p|
  {
    if |p| > 0 {
      var n := |p| - 1;
      var init := p[..n];
      var prev := Rekey(init, f);
      var r := Rekey(p, f);
      assert r == Assign(prev, f(p[n].0), p[n].1);
      RekeyKeys(init, f);
      forall i | 0 <= i < |r|
        ensures exists j :: 0 <= j < |p| && r[i].0 == f(p[j].0)
      {
        if r[i].0 == f(p[n].0) {
          assert r[i].0 == f(p[n].0);
        } else {
          var i' :| 0 <= i' < |prev| && prev[i'] == r[i];
          var j :| 0 <= j < |init| && prev[i'].0 == f(init[j].0);
          assert init[j] == p[j];
        }
      }
    } else {
      assert Rekey(p, f) == [];
    }
  }

  /** Every renamed key of the original is a key of the copy. */
  lemma RekeyCoversKeys<V>(p: Record<V>, f: string -> string)
    ensures forall j :: 0 <= j < |p| ==> Get(Rekey(p, f), f(p[j].0)).Some?
  {
    forall j | 0 <= j < |p|
      ensures Get(Rekey(p, f), f(p[j].0)).Some?
    {
      RekeyLastWins(p, f, f(p[j].0));
    }
  }

  /** The position of the last property of `p` whose key `f` renames to `k`, if any. */
  function LastRenamed<V>(p: Record<V>, f: string -> string, k: string): (r: Option<nat>)
    ensures r.Some? ==> LastRenamedTo(p, f, k, r.value)
    ensures r.None? <==> forall i :: 0 <= i < |p| ==> f(p[i].0) != k
  {
    if |p| == 0 then None
    else if f(p[|p| - 1].0) == k then Some(|p| - 1)
    else
      assert forall j :: 0 <= j < |p| - 1 ==> p[..|p| - 1][j] == p[j];
      LastRenamed(p[..|p| - 1], f, k)
  }

  /**
   * After renaming, a key holds the value of the LAST property renamed to it,
   * and is absent when no property is renamed to it.
   */
  lemma {:induction false} RekeyLastWins<V>(p: Record<V>, f: string -> string, k: string)
    ensures Get(Rekey(p, f), k) == match LastRenamed(p, f, k)
                                   case None => None
                                   case Some(i) => Some(p[i].1)
    decreases |p|
  {
    if |p| > 0 {
      var n := |p| - 1;
      var init := p[..n];
      var prev := Rekey(init, f);
      assert Rekey(p, f) == Assign(prev, f(p[n].0), p[n].1);
      AssignGet(prev, f(p[n].0), p[n].1, k);
      if f(p[n].0) != k {
        RekeyLastWins(init, f, k);
        assert LastRenamed(p, f, k) == LastRenamed(init, f, k);
        if LastRenamed(init, f, k).Some? {
          assert init[LastRenamed(init, f, k).value] == p[LastRenamed(init, f, k).value];
        }
      }
    }
  }

  // ---------------------------------------------------------------------------
  // Renaming without clashes

  /** Renames every key of `p` in place, one property per property. */
  function MapKeys<V>(p: Record<V>, f: string -> string): (r: Record<V>)
    ensures |r| == |p|
    ensures forall i :: 0 <= i < |p| ==> r[i] == (f(p[i].0), p[i].1)
  {
    if |p| == 0 then [] else MapKeys(p[..|p| - 1], f) + [(f(p[|p| - 1].0), p[|p| - 1].1)]
  }

  /** No two properties of `p` are renamed to the same key. */
  predicate RenamedApart<V>(p: Record<V>, f: string -> string) {
    forall i, j :: 0 <= i < j < |p| ==> f(p[i].0) != f(p[j].0)
  }

  /** When no two keys clash after renaming, the copy renames each property where it stands. */
  lemma {:induction false} RekeyWithoutClash<V>(p: Record<V>, f: string -> string)
    requires RenamedApart(p, f)
    ensures Rekey(p, f) == MapKeys(p, f)
    decreases |p|
  {
    if |p| > 0 {
      var n := |p| - 1;
      var init := p[..n];
      var kn := f(p[n].0);
      assert forall j :: 0 <= j < n ==> init[j] == p[j];
      assert RenamedApart(init, f);
      RekeyWithoutClash(init, f);
      var prev := MapKeys(init, f);
      assert forall i :: 0 <= i < |prev| ==> prev[i].0 != kn;
      assert Rekey(p, f) == Assign(prev, kn, p[n].1) == prev + [(kn, p[n].1)];
    }
  }

  // ---------------------------------------------------------------------------
  // Properties of the codec

  /**
   * Formatting: a name that already starts with the prefix (with or without
   * `_`) is kept; any other name gets `prefix_` in front. Values are never
   * changed: each name holds the value of the last property formatted to it.
   */
  lemma FormatKeysAndValues<V>(properties: Record<V>, appPrefix: string, k: string)
    ensures var r := FormatAppObjectProperties(properties, appPrefix);
            && (Get(r, k).None? <==> forall i :: 0 <= i < |properties| ==> FormatKey(appPrefix, properties[i].0) != k)
            && (Get(r, k).Some? ==> exists i :: LastRenamedTo(properties, Formatter(appPrefix), k, i)
                                                && properties[i].1 == Get(r, k).value)
  {
    RekeyLastWins(properties, Formatter(appPrefix), k);
    var last := LastRenamed(properties, Formatter(appPrefix), k);
    if last.Some? {
      assert LastRenamedTo(properties, Formatter(appPrefix), k, last.value);
    }
  }

  /**
   * Stripping renames each property where it stands, taking one leading
   * `prefix_` off names that start with it, when no two names strip to the
   * same name; the values are untouched.
   */
  lemma StripNamesAndValues<V>(properties: Record<V>, appPrefix: string)
    requires RenamedApart(properties, Stripper(appPrefix))
    ensures var r := StripAppObjectPrefix(properties, appPrefix);
            && |r| == |properties|
            && forall i :: 0 <= i < |r| ==> r[i] == (StripKey(appPrefix, properties[i].0), properties[i].1)
  {
    RekeyWithoutClash(properties, Stripper(appPrefix));
  }

  /** Two properties `x` and `golf_x` both become `golf_x`; the later one's value is kept. */
  lemma LaterPropertyWins(v1: int, v2: int)
    ensures FormatAppObjectProperties([("x", v1), ("golf_x", v2)], "golf") == [("golf_x", v2)]
    ensures FormatAppObjectProperties([("golf_x", v2), ("x", v1)], "golf") == [("golf_x", v1)]
  {
    var f := Formatter("golf");
    assert !StartsWith("x", "golf");
    assert StartsWith("golf_x", "golf");
    assert f("x") == "golf_x";
    assert f("golf_x") == "golf_x";
    var p1 := [("x", v1), ("golf_x", v2)];
    assert p1[..1] == [("x", v1)];
    assert [("x", v1)][..0] == [];
    assert Rekey([("x", v1)], f) == Assign([], "golf_x", v1) == [("golf_x", v1)];
    assert Rekey(p1, f) == Assign([("golf_x", v1)], "golf_x", v2) == [("golf_x", v2)];
    var p2 := [("golf_x", v2), ("x", v1)];
    assert p2[..1] == [("golf_x", v2)];
    assert [("golf_x", v2)][..0] == [];
    assert Rekey([("golf_x", v2)], f) == Assign([], "golf_x", v2) == [("golf_x", v2)];
    assert Rekey(p2, f) == Assign([("golf_x", v2)], "golf_x", v1) == [("golf_x", v1)];
  }

  /** Formatting an already formatted object changes nothing. */
  lemma FormatIdempotent<V>(properties: Record<V>, appPrefix: string)
    ensures var once := FormatAppObjectProperties(properties, appPrefix);
            FormatAppObjectProperties(once, appPrefix) == once
  {
    var once := FormatAppObjectProperties(properties, appPrefix);
    RekeyWithoutClash(once, Formatter(appPrefix));
    assert MapKeys(once, Formatter(appPrefix)) == once;
  }

  /** Stripping a formatted name restores it, provided it did not already start with `prefix_`. */
  lemma StripFormatKey(prefix: string, k: string)
    requires !StartsWith(k, prefix + "_")
    ensures StripKey(prefix, FormatKey(prefix, k)) == k
  {
    if !StartsWith(k, prefix) {
      var f := prefix + "_" + k;
      assert f[..|prefix + "_"|] == prefix + "_";
      assert f[|prefix| + 1..] == k;
    }
  }

  /** Formatting does not merge two distinct names unless one of them starts with `prefix_`. */
  lemma FormatKeyInjective(prefix: string, k1: string, k2: string)
    requires !StartsWith(k1, prefix + "_") && !StartsWith(k2, prefix + "_")
    requires FormatKey(prefix, k1) == FormatKey(prefix, k2)
    ensures k1 == k2
  {
    StripFormatKey(prefix, k1);
    StripFormatKey(prefix, k2);
  }

  /** Formatting keeps distinct names apart when none of them starts with `prefix_`. */
  lemma FormatKeepsApart<V>(properties: Record<V>, appPrefix: string)
    requires DistinctKeys(properties)
    requires forall i :: 0 <= i < |properties| ==> !StartsWith(properties[i].0, appPrefix + "_")
    ensures RenamedApart(properties, Formatter(appPrefix))
  {
    var add := Formatter(appPrefix);
    forall i, j | 0 <= i < j < |properties|
      ensures add(properties[i].0) != add(properties[j].0)
    {
      if add(properties[i].0) == add(properties[j].0) {
        FormatKeyInjective(appPrefix, properties[i].0, properties[j].0);
      }
    }
  }

  /** Renaming every property by the formatter and then by the stripper gives the names back. */
  lemma StripUndoesFormat<V>(properties: Record<V>, appPrefix: string)
    requires forall i :: 0 <= i < |properties| ==> !StartsWith(properties[i].0, appPrefix + "_")
    ensures MapKeys(MapKeys(properties, Formatter(appPrefix)), Stripper(appPrefix)) == properties
  {
    var formatted := MapKeys(properties, Formatter(appPrefix));
    var stripped := MapKeys(formatted, Stripper(appPrefix));
    forall i | 0 <= i < |properties|
      ensures stripped[i] == properties[i]
    {
      var k := properties[i].0;
      assert formatted[i].0 == FormatKey(appPrefix, k);
      StripFormatKey(appPrefix, k);
      assert stripped[i].0 == StripKey(appPrefix, FormatKey(appPrefix, k));
    }
    assert |stripped| == |properties|;
  }

  /** A renaming whose result has distinct keys renamed no two properties alike. */
  lemma DistinctResultApart<V>(p: Record<V>, f: string -> string)
    requires DistinctKeys(MapKeys(p, f))
    ensures RenamedApart(p, f)
  {
    var r := MapKeys(p, f);
    assert forall i, j :: 0 <= i < j < |p| ==> r[i].0 != r[j].0;
  }

  /**
   * Round trip: when no property name starts with `prefix_`, stripping the
   * formatted object gives back the original object, in the same order.
   */
  lemma StripFormatRoundTrip<V>(properties: Record<V>, appPrefix: string)
    requires DistinctKeys(properties)
    requires forall i :: 0 <= i < |properties| ==> !StartsWith(properties[i].0, appPrefix + "_")
    ensures StripAppObjectPrefix(FormatAppObjectProperties(properties, appPrefix), appPrefix) == properties
  {
    var add := Formatter(appPrefix);
    var strip := Stripper(appPrefix);
    var formatted := MapKeys(properties, add);
    FormatKeepsApart(properties, appPrefix);
    RekeyWithoutClash(properties, add);
    assert FormatAppObjectProperties(properties, appPrefix) == formatted;
    StripUndoesFormat(properties, appPrefix);
    DistinctResultApart(formatted, strip);
    RekeyWithoutClash(formatted, strip);
    assert StripAppObjectPrefix(formatted, appPrefix) == Rekey(formatted, strip);
  }
}
