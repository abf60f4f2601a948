/**
 * The store of ini_parser: an ordered sequence of sections, each holding an
 * ordered sequence of parameters.  This module gives the pure specification of
 * the store operations (first-match lookup, find-or-append upsert, erase of the
 * first match) and proves what they promise.
 */
module IniStore {

  /** A parameter: `name=value`. */
  datatype Parameter = Parameter(name: string, value: string)

  /** A section: its name and its parameters, in insertion order. */
  datatype Section = Section(name: string, params: seq<Parameter>)

  function SectionNames(secs: seq<Section>): (names: seq<string>)
    ensures |names| == |secs| && forall i :: 0 <= i < |secs| ==> names[i] == secs[i].name
  {
    seq(|secs|, i requires 0 <= i < |secs| => secs[i].name)
  }

  function ParamNames(params: seq<Parameter>): (names: seq<string>)
    ensures |names| == |params| && forall i :: 0 <= i < |params| ==> names[i] == params[i].name
  {
    seq(|params|, i requires 0 <= i < |params| => params[i].name)
  }

  /** Section names are pairwise distinct. */
  predicate DistinctSections(secs: seq<Section>) {
    forall a, b :: 0 <= a < b < |secs| ==> secs[a].name != secs[b].name
  }

  /** Parameter names are pairwise distinct. */
  predicate DistinctParams(params: seq<Parameter>) {
    forall a, b :: 0 <= a < b < |params| ==> params[a].name != params[b].name
  }

  /** The store invariant: distinct section names, distinct parameter names in each section. */
  predicate StoreValid(secs: seq<Section>) {
    DistinctSections(secs) && forall i :: 0 <= i < |secs| ==> DistinctParams(secs[i].params)
  }

  /**
   * Index of the first section called `name`, or |secs| (the end position) when
   * there is none.
   */
  function FindSection(secs: seq<Section>, name: string): (i: nat)
    ensures i <= |secs|
    ensures i < |secs| ==> secs[i].name == name
    ensures forall k :: 0 <= k < i ==> secs[k].name != name
  {
    if |secs| == 0 then 0
    else if secs[0].name == name then 0
    else 1 + FindSection(secs[1..], name)
  }

  /** Index of the first parameter called `name`, or |params| when there is none. */
  function FindParam(params: seq<Parameter>, name: string): (j: nat)
    ensures j <= |params|
    ensures j < |params| ==> params[j].name == name
    ensures forall k :: 0 <= k < j ==> params[k].name != name
  {
    if |params| == 0 then 0
    else if params[0].name == name then 0
    else 1 + FindParam(params[1..], name)
  }

  /** The first-match property determines FindSection. */
  lemma FindSectionIs(secs: seq<Section>, name: string, i: nat)
    requires i <= |secs| && (i < |secs| ==> secs[i].name == name)
    requires forall k :: 0 <= k < i ==> secs[k].name != name
    ensures FindSection(secs, name) == i
  {
  }

  /** The first-match property determines FindParam. */
  lemma FindParamIs(params: seq<Parameter>, name: string, j: nat)
    requires j <= |params| && (j < |params| ==> params[j].name == name)
    requires forall k :: 0 <= k < j ==> params[k].name != name
    ensures FindParam(params, name) == j
  {
  }

  /** The value of the first parameter called `key`, or "". */
  function ParamValue(params: seq<Parameter>, key: string): string {
    var j := FindParam(params, key);
    if j == |params| then "" else params[j].value
  }

  /** The value getValue returns: the first matching parameter of the first matching section, or "". */
  function Lookup(secs: seq<Section>, section: string, key: string): string {
    var i := FindSection(secs, section);
    if i == |secs| then "" else ParamValue(secs[i].params, key)
  }

  /** The store holds parameter `key` with value `value` in section `section`. */
  ghost predicate Binds(secs: seq<Section>, section: string, key: string, value: string) {
    exists i, j :: 0 <= i < |secs| && 0 <= j < |secs[i].params| &&
      secs[i].name == section && secs[i].params[j] == Parameter(key, value)
  }

  /** Overwrite or append parameter `key` (the parameter half of setValue). */
  function SetParam(params: seq<Parameter>, key: string, value: string): seq<Parameter> {
    var j := FindParam(params, key);
    if j == |params| then params + [Parameter(key, value)]
    else params[j := params[j].(value := value)]
  }

  /** setValue: find or append the section, find or append the parameter, overwrite the value. */
  function Upsert(secs: seq<Section>, section: string, key: string, value: string): seq<Section> {
    var i := FindSection(secs, section);
    if i == |secs| then secs + [Section(section, [Parameter(key, value)])]
    else secs[i := secs[i].(params := SetParam(secs[i].params, key, value))]
  }

  /** removeSection: erase the first section called `section`, if any. */
  function EraseSection(secs: seq<Section>, section: string): seq<Section> {
    var i := FindSection(secs, section);
    if i == |secs| then secs else secs[..i] + secs[i + 1..]
  }

  /** Erase the first parameter called `key`, if any. */
  function EraseFirstParam(params: seq<Parameter>, key: string): seq<Parameter> {
    var j := FindParam(params, key);
    if j == |params| then params else params[..j] + params[j + 1..]
  }

  /** removeParameters: erase parameter `key` from the (existing) section `section`. */
  function EraseParam(secs: seq<Section>, section: string, key: string): seq<Section>
    requires FindSection(secs, section) < |secs|
  {
    var i := FindSection(secs, section);
    secs[i := secs[i].(params := EraseFirstParam(secs[i].params, key))]
  }

  /** Reference definition: the sections not called `section`, in their order. */
  function SectionsExcept(secs: seq<Section>, section: string): seq<Section> {
    if secs == [] then []
    else (if secs[0].name == section then [] else [secs[0]]) + SectionsExcept(secs[1..], section)
  }

  /** Reference definition: the parameters not called `key`, in their order. */
  function ParamsExcept(params: seq<Parameter>, key: string): seq<Parameter> {
    if params == [] then []
    else (if params[0].name == key then [] else [params[0]]) + ParamsExcept(params[1..], key)
  }

  // ---------------------------------------------------------------- lookup

  /** With distinct names, Lookup returns the bound value ... */
  lemma LookupFindsBinding(secs: seq<Section>, section: string, key: string, value: string)
    requires StoreValid(secs) && Binds(secs, section, key, value)
    ensures Lookup(secs, section, key) == value
  {
    var i, j :| 0 <= i < |secs| && 0 <= j < |secs[i].params| &&
      secs[i].name == section && secs[i].params[j] == Parameter(key, value);
    FindSectionIs(secs, section, i);
    FindParamIs(secs[i].params, key, j);
  }

  /** ... and a non-empty Lookup result is always a binding of the store. */
  lemma LookupIsBinding(secs: seq<Section>, section: string, key: string)
    requires Lookup(secs, section, key) != ""
    ensures Binds(secs, section, key, Lookup(secs, section, key))
  {
    var i := FindSection(secs, section);
    var j := FindParam(secs[i].params, key);
    assert secs[i].params[j] == Parameter(key, Lookup(secs, section, key));
  }

  /** Nothing is found in a section the store does not have. */
  lemma LookupMissingSection(secs: seq<Section>, section: string, key: string)
    requires section !in SectionNames(secs)
    ensures Lookup(secs, section, key) == ""
  {
  }

  // ---------------------------------------------------------------- upsert

  /** Lookup of a parameter inside SetParam's result. */
  lemma SetParamLookup(params: seq<Parameter>, key: string, value: string, k: string)
    ensures ParamValue(SetParam(params, key, value), k) == if k == key then value else ParamValue(params, k)
  {
    var r := SetParam(params, key, value);
    var j0 := FindParam(params, key);
    var m := FindParam(params, k);
    if j0 == |params| {
      if k == key {
        FindParamIs(r, k, |params|);
      } else if m < |params| {
        FindParamIs(r, k, m);
      } else {
        FindParamIs(r, k, |r|);
      }
    } else {
      assert forall t :: 0 <= t < |r| ==> r[t].name == params[t].name;
      FindParamIs(r, k, m);
    }
  }

  /**
   * Round trip and frame of setValue: afterwards getValue(section, key) is `value`,
   * and every other (section, key) pair looks up what it did before.
   */
  lemma UpsertLookup(secs: seq<Section>, section: string, key: string, value: string, s: string, k: string)
    ensures Lookup(Upsert(secs, section, key, value), s, k) ==
            if s == section && k == key then value else Lookup(secs, s, k)
  {
    var r := Upsert(secs, section, key, value);
    var i := FindSection(secs, section);
    var m := FindSection(secs, s);
    if i == |secs| {
      if s == section {
        FindSectionIs(r, s, |secs|);
        FindParamIs(r[|secs|].params, k, if k == key then 0 else 1);
      } else if m < |secs| {
        FindSectionIs(r, s, m);
      } else {
        FindSectionIs(r, s, |r|);
      }
    } else {
      assert forall t :: 0 <= t < |r| ==> r[t].name == secs[t].name;
      FindSectionIs(r, s, m);
      if s == section {
        SetParamLookup(secs[i].params, key, value, k);
      }
    }
  }

  /** setValue appends the parameter it cannot find, and otherwise keeps the names and their order. */
  lemma SetParamNames(params: seq<Parameter>, key: string, value: string)
    ensures ParamNames(SetParam(params, key, value)) ==
            if key in ParamNames(params) then ParamNames(params) else ParamNames(params) + [key]
  {
    var j := FindParam(params, key);
    var r := SetParam(params, key, value);
    if j < |params| {
      assert ParamNames(params)[j] == key;
      assert ParamNames(r) == ParamNames(params);
    } else {
      assert key !in ParamNames(params);
      assert ParamNames(r) == ParamNames(params) + [key];
    }
  }

  /**
   * Order: setValue appends the section it cannot find and keeps the existing sections,
   * their order and every section other than `section` exactly as they were.
   */
  lemma UpsertShape(secs: seq<Section>, section: string, key: string, value: string)
    ensures var r := Upsert(secs, section, key, value);
      && SectionNames(r) == (if section in SectionNames(secs) then SectionNames(secs) else SectionNames(secs) + [section])
      && (forall t :: 0 <= t < |secs| && t != FindSection(secs, section) ==> r[t] == secs[t])
      && (section !in SectionNames(secs) ==> r[|secs|] == Section(section, [Parameter(key, value)]))
  {
    var i := FindSection(secs, section);
    var r := Upsert(secs, section, key, value);
    if i < |secs| {
      assert SectionNames(secs)[i] == section;
      assert SectionNames(r) == SectionNames(secs);
    } else {
      assert section !in SectionNames(secs);
      assert SectionNames(r) == SectionNames(secs) + [section];
    }
  }

  /** setValue keeps section names distinct and parameter names distinct within each section. */
  lemma UpsertValid(secs: seq<Section>, section: string, key: string, value: string)
    requires StoreValid(secs)
    ensures StoreValid(Upsert(secs, section, key, value))
  {
    var i := FindSection(secs, section);
    if i < |secs| {
      var ps := secs[i].params;
      var j := FindParam(ps, key);
      var ps2 := SetParam(ps, key, value);
      assert DistinctParams(ps2) by {
        if j < |ps| {
          assert forall t :: 0 <= t < |ps2| ==> ps2[t].name == ps[t].name;
        }
      }
    }
  }

  /** Setting the same parameter twice is the same as setting it once. */
  lemma SetParamIdempotent(ps: seq<Parameter>, key: string, value: string)
    ensures SetParam(SetParam(ps, key, value), key, value) == SetParam(ps, key, value)
  {
    var j := FindParam(ps, key);
    var ps2 := SetParam(ps, key, value);
    if j == |ps| {
      FindParamIs(ps2, key, |ps|);
      assert ps2[|ps| := ps2[|ps|].(value := value)] == ps2;
    } else {
      assert forall t :: 0 <= t < |ps2| ==> ps2[t].name == ps[t].name;
      FindParamIs(ps2, key, j);
      assert ps2[j := ps2[j].(value := value)] == ps2;
    }
  }

  /** Setting the same value twice gives the same store as setting it once. */
  lemma UpsertIdempotent(secs: seq<Section>, section: string, key: string, value: string)
    ensures Upsert(Upsert(secs, section, key, value), section, key, value) == Upsert(secs, section, key, value)
  {
    var r := Upsert(secs, section, key, value);
    var i := FindSection(secs, section);
    if i == |secs| {
      FindSectionIs(r, section, |secs|);
      FindParamIs(r[|secs|].params, key, 0);
      assert r[|secs|].params[0 := r[|secs|].params[0].(value := value)] == r[|secs|].params;
    } else {
      assert forall t :: 0 <= t < |r| ==> r[t].name == secs[t].name;
      FindSectionIs(r, section, i);
      SetParamIdempotent(secs[i].params, key, value);
      assert r[i := r[i].(params := SetParam(r[i].params, key, value))] == r;
    }
  }


  // ---------------------------------------------------------------- removeSection

  /** The element at t once the element at i is erased. */
  lemma ErasedAt<T>(xs: seq<T>, i: nat, t: nat)
    requires i < |xs| && t < |xs| - 1
    ensures (xs[..i] + xs[i + 1..])[t] == if t < i then xs[t] else xs[t + 1]
  {
  }

  lemma {:induction false} SectionsExceptAbsent(secs: seq<Section>, section: string)
    requires forall t :: 0 <= t < |secs| ==> secs[t].name != section
    ensures SectionsExcept(secs, section) == secs
  {
    if secs != [] {
      SectionsExceptAbsent(secs[1..], section);
    }
  }

  lemma {:induction false} SectionsExceptAt(secs: seq<Section>, section: string, i: nat)
    requires i < |secs| && secs[i].name == section
    requires forall a, b :: 0 <= a < b < |secs| ==> secs[a].name != secs[b].name
    requires forall t :: 0 <= t < i ==> secs[t].name != section
    ensures SectionsExcept(secs, section) == secs[..i] + secs[i + 1..]
  {
    if i == 0 {
      SectionsExceptAbsent(secs[1..], section);
    } else {
      SectionsExceptAt(secs[1..], section, i - 1);
      assert secs[1..][..i - 1] + secs[1..][i..] == secs[1..i] + secs[i + 1..];
      assert [secs[0]] + secs[1..i] == secs[..i];
    }
  }

  /**
   * In a valid store, removeSection keeps exactly the other sections, in their
   * original order; when `section` is absent it changes nothing.
   */
  lemma EraseSectionKeepsOthers(secs: seq<Section>, section: string)
    requires StoreValid(secs)
    ensures EraseSection(secs, section) == SectionsExcept(secs, section)
    ensures section !in SectionNames(secs) ==> EraseSection(secs, section) == secs
  {
    var i := FindSection(secs, section);
    if i < |secs| {
      SectionsExceptAt(secs, section, i);
      assert SectionNames(secs)[i] == section;
    } else {
      SectionsExceptAbsent(secs, section);
    }
  }

  /** Once the first `section` is erased, no later one is left to find. */
  lemma FindErasedGone(secs: seq<Section>, section: string)
    requires DistinctSections(secs) && FindSection(secs, section) < |secs|
    ensures var i := FindSection(secs, section);
      FindSection(secs[..i] + secs[i + 1..], section) == |secs| - 1
  {
    var i := FindSection(secs, section);
    var r := secs[..i] + secs[i + 1..];
    forall k | 0 <= k < |r| ensures r[k].name != section {
      ErasedAt(secs, i, k);
      if k >= i {
        assert r[k] == secs[k + 1];
        assert secs[i].name != secs[k + 1].name;
      }
    }
    FindSectionIs(r, section, |r|);
  }

  /** A section found before the erased index keeps its position. */
  lemma FindBeforeErased(secs: seq<Section>, i: nat, s: string)
    requires i < |secs| && FindSection(secs, s) < i
    ensures FindSection(secs[..i] + secs[i + 1..], s) == FindSection(secs, s)
  {
    var r := secs[..i] + secs[i + 1..];
    var m := FindSection(secs, s);
    forall k | 0 <= k < m ensures r[k].name != s {
      ErasedAt(secs, i, k);
    }
    ErasedAt(secs, i, m);
    FindSectionIs(r, s, m);
  }

  /** A section found after the erased index, or not at all, moves down by one. */
  lemma FindPastErased(secs: seq<Section>, i: nat, s: string)
    requires i < |secs| && i < FindSection(secs, s)
    ensures FindSection(secs[..i] + secs[i + 1..], s) == FindSection(secs, s) - 1
  {
    var r := secs[..i] + secs[i + 1..];
    var m := FindSection(secs, s);
    forall k | 0 <= k < m - 1 ensures r[k].name != s {
      ErasedAt(secs, i, k);
      if k >= i {
        assert k + 1 < m;
      }
    }
    if m < |secs| {
      ErasedAt(secs, i, m - 1);
    }
    FindSectionIs(r, s, m - 1);
  }

  /** Erasing the first `section` shifts the position of every other section after it down by one. */
  lemma FindOtherAfterErase(secs: seq<Section>, section: string, s: string)
    requires FindSection(secs, section) < |secs| && s != section
    ensures var i := FindSection(secs, section); var m := FindSection(secs, s);
      FindSection(secs[..i] + secs[i + 1..], s) ==
      if m == |secs| then |secs| - 1 else if m < i then m else m - 1
  {
    var i := FindSection(secs, section);
    var m := FindSection(secs, s);
    if m < i {
      FindBeforeErased(secs, i, s);
    } else {
      assert m != i by {
        assert secs[i].name == section;
      }
      FindPastErased(secs, i, s);
    }
  }

  /** Where a section is found once the first `section` is erased. */
  lemma FindAfterErase(secs: seq<Section>, section: string, s: string)
    requires DistinctSections(secs) && FindSection(secs, section) < |secs|
    ensures var i := FindSection(secs, section); var m := FindSection(secs, s);
      FindSection(secs[..i] + secs[i + 1..], s) ==
      if s == section || m == |secs| then |secs| - 1 else if m < i then m else m - 1
  {
    if s == section {
      FindErasedGone(secs, section);
    } else {
      FindOtherAfterErase(secs, section, s);
    }
  }

  /** After removeSection(section) every key of `section` is absent; other sections look up as before. */
  lemma EraseSectionLookup(secs: seq<Section>, section: string, s: string, k: string)
    requires StoreValid(secs)
    ensures Lookup(EraseSection(secs, section), s, k) == if s == section then "" else Lookup(secs, s, k)
  {
    var i := FindSection(secs, section);
    if i < |secs| {
      var r := secs[..i] + secs[i + 1..];
      FindAfterErase(secs, section, s);
      var m := FindSection(secs, s);
      var n := FindSection(r, s);
      if n < |r| {
        ErasedAt(secs, i, n);
        assert r[n] == secs[m];
      }
    }
  }

  /** removeSection keeps the store invariant. */
  lemma EraseSectionValid(secs: seq<Section>, section: string)
    requires StoreValid(secs)
    ensures StoreValid(EraseSection(secs, section))
  {
    var i := FindSection(secs, section);
    if i < |secs| {
      var r := secs[..i] + secs[i + 1..];
      forall a, b | 0 <= a < b < |r| ensures r[a].name != r[b].name {
        ErasedAt(secs, i, a);
        ErasedAt(secs, i, b);
      }
      forall t | 0 <= t < |r| ensures DistinctParams(r[t].params) {
        ErasedAt(secs, i, t);
      }
    }
  }

  // ---------------------------------------------------------------- removeParameters

  lemma {:induction false} ParamsExceptAbsent(params: seq<Parameter>, key: string)
    requires forall t :: 0 <= t < |params| ==> params[t].name != key
    ensures ParamsExcept(params, key) == params
  {
    if params != [] {
      ParamsExceptAbsent(params[1..], key);
    }
  }

  lemma {:induction false} ParamsExceptAt(params: seq<Parameter>, key: string, j: nat)
    requires j < |params| && params[j].name == key
    requires DistinctParams(params)
    requires forall t :: 0 <= t < j ==> params[t].name != key
    ensures ParamsExcept(params, key) == params[..j] + params[j + 1..]
  {
    if j == 0 {
      ParamsExceptAbsent(params[1..], key);
    } else {
      ParamsExceptAt(params[1..], key, j - 1);
      assert params[1..][..j - 1] + params[1..][j..] == params[1..j] + params[j + 1..];
      assert [params[0]] + params[1..j] == params[..j];
    }
  }

  /** Erasing the first `key` among distinct parameters keeps exactly the others, in order. */
  lemma EraseFirstParamExcept(ps: seq<Parameter>, key: string)
    requires DistinctParams(ps)
    ensures EraseFirstParam(ps, key) == ParamsExcept(ps, key)
    ensures key !in ParamNames(ps) ==> EraseFirstParam(ps, key) == ps
  {
    var j := FindParam(ps, key);
    if j < |ps| {
      ParamsExceptAt(ps, key, j);
      assert ParamNames(ps)[j] == key;
    } else {
      ParamsExceptAbsent(ps, key);
    }
  }

  /**
   * removeParameters: in a valid store it keeps exactly the other parameters of
   * `section`, in order, and leaves every other section untouched.
   */
  lemma EraseParamShape(secs: seq<Section>, section: string, key: string)
    requires StoreValid(secs) && FindSection(secs, section) < |secs|
    ensures var r := EraseParam(secs, section, key); var i := FindSection(secs, section);
      && |r| == |secs|
      && r[i] == Section(section, ParamsExcept(secs[i].params, key))
      && (key !in ParamNames(secs[i].params) ==> r == secs)
      && forall t :: 0 <= t < |secs| && t != i ==> r[t] == secs[t]
  {
    var i := FindSection(secs, section);
    var ps := secs[i].params;
    EraseFirstParamExcept(ps, key);
    if key !in ParamNames(ps) {
      assert secs[i := secs[i].(params := ps)] == secs;
    }
  }


  /** The value found under `k` among parameters after erasing `key`. */
  lemma EraseFirstParamFind(ps: seq<Parameter>, key: string, k: string)
    requires DistinctParams(ps)
    ensures ParamValue(EraseFirstParam(ps, key), k) == if k == key then "" else ParamValue(ps, k)
  {
    var j := FindParam(ps, key);
    var ps2 := EraseFirstParam(ps, key);
    var m := FindParam(ps, k);
    if j < |ps| {
      var target := if k == key || m == |ps| then |ps2| else if m < j then m else m - 1;
      forall t | 0 <= t < target ensures ps2[t].name != k {
        ErasedAt(ps, j, t);
      }
      if target < |ps2| {
        ErasedAt(ps, j, target);
      }
      FindParamIs(ps2, k, target);
    } else if k == key {
      FindParamIs(ps2, k, |ps2|);
    }
  }

  /** After removeParameters(section, key) the key is absent; every other pair looks up as before. */
  lemma EraseParamLookup(secs: seq<Section>, section: string, key: string, s: string, k: string)
    requires StoreValid(secs) && FindSection(secs, section) < |secs|
    ensures Lookup(EraseParam(secs, section, key), s, k) ==
            if s == section && k == key then "" else Lookup(secs, s, k)
  {
    var i := FindSection(secs, section);
    var r := EraseParam(secs, section, key);
    assert forall t :: 0 <= t < |r| ==> r[t].name == secs[t].name;
    var m := FindSection(secs, s);
    FindSectionIs(r, s, m);
    if s == section {
      EraseFirstParamFind(secs[i].params, key, k);
    }
  }

  /** removeParameters keeps the store invariant. */
  lemma EraseParamValid(secs: seq<Section>, section: string, key: string)
    requires StoreValid(secs) && FindSection(secs, section) < |secs|
    ensures StoreValid(EraseParam(secs, section, key))
  {
    var i := FindSection(secs, section);
    var r := EraseParam(secs, section, key);
    var ps := secs[i].params;
    var j := FindParam(ps, key);
    if j < |ps| {
      var ps2 := r[i].params;
      forall a, b | 0 <= a < b < |ps2| ensures ps2[a].name != ps2[b].name {
        ErasedAt(ps, j, a);
        ErasedAt(ps, j, b);
      }
    }
  }
}
