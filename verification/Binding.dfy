/**
 Matching of supplied parameters to placeholders (R/db_bind.R) and the check that makes
 row-wise access to them safe (src/DbResult.cpp).
 */
module Binding {
  import opened Wrappers

  datatype BindError =
    | MixedAnonymous
    | MixedNumbered
    | NamedForPositional
    | MissingValue
    | UnusedParameter
    | NoParametersExpected
    | WrongParameterCount
    | UnequalLengths

  /** An R list: its values and, unless names() is NULL, a name for each. */
  datatype ParamList<V> = ParamList(values: seq<V>, names: Option<seq<string>>) {
    predicate Valid() {
      names.Some? ==> |names.value| == |values|
    }
  }

  /** get_placeholder_names(): no name for "?", otherwise the name without its first character. */
  function PlaceholderNames(engine: seq<Option<string>>): (names: seq<string>)
    requires forall k :: 0 <= k < |engine| ==> engine[k] != Some("")
    ensures |names| == |engine|
    ensures forall k :: 0 <= k < |engine| && engine[k].None? ==> names[k] == ""
    ensures forall k :: 0 <= k < |engine| && engine[k].Some? ==> engine[k].value == [engine[k].value[0]] + names[k]
  {
    seq(|engine|, k requires 0 <= k < |engine| => if engine[k].None? then "" else engine[k].value[1..])
  }

  /** The pattern ^[1-9][0-9]*$. */
  predicate IsNumber(s: string) {
    s != "" && '1' <= s[0] <= '9' && forall i :: 1 <= i < |s| ==> '0' <= s[i] <= '9'
  }

  /** A decimal numeral without leading zeros. */
  function Decimal(n: nat): (s: string)
    ensures s != ""
  {
    if n < 10 then ["0123456789"[n]] else Decimal(n / 10) + ["0123456789"[n % 10]]
  }

  lemma {:induction false} DecimalIsNumber(n: nat)
    requires n > 0
    ensures IsNumber(Decimal(n))
  {
    if n >= 10 {
      DecimalIsNumber(n / 10);
    }
  }

  lemma {:induction false} NumberIsDecimal(s: string) returns (n: nat)
    requires IsNumber(s)
    ensures n > 0 && Decimal(n) == s
    decreases |s|
  {
    var last := s[|s| - 1] as int - 48;
    assert "0123456789"[last] == s[|s| - 1];
    if |s| == 1 {
      n := last;
    } else {
      var m := NumberIsDecimal(s[..|s| - 1]);
      n := 10 * m + last;
      assert n / 10 == m && n % 10 == last;
    }
  }

  /** The pattern matches exactly the decimal numerals of the positive integers. */
  lemma IsNumberMeans(s: string)
    ensures IsNumber(s) <==> exists n: nat :: n > 0 && Decimal(n) == s
  {
    if IsNumber(s) {
      var n := NumberIsDecimal(s);
    }
    if n: nat :| n > 0 && Decimal(n) == s {
      DecimalIsNumber(n);
    }
  }

  /** match(): the index of the first occurrence. */
  function FirstIndex(names: seq<string>, x: string): (r: Option<nat>)
    ensures r.Some? ==> r.value < |names| && names[r.value] == x && x !in names[..r.value]
    ensures r.None? <==> x !in names
  {
    if names == [] then None
    else if names[0] == x then Some(0)
    else match FirstIndex(names[1..], x)
      case None => None
      case Some(i) => assert names[..i + 1] == [names[0]] + names[1..][..i]; Some(i + 1)
  }

  /** Whether parameter `i` is the one that some placeholder gets. */
  predicate IsUsed(placeholders: seq<string>, names: seq<string>, i: nat) {
    exists k :: 0 <= k < |placeholders| && FirstIndex(names, placeholders[k]) == Some(i)
  }

  predicate HasUnused(placeholders: seq<string>, names: seq<string>) {
    exists i :: 0 <= i < |names| && !IsUsed(placeholders, names, i)
  }

  predicate HasMissing(placeholders: seq<string>, names: seq<string>) {
    exists k :: 0 <= k < |placeholders| && placeholders[k] !in names
  }

  predicate HasNumbered(placeholders: seq<string>) {
    exists k :: 0 <= k < |placeholders| && IsNumber(placeholders[k])
  }

  /** The values in placeholder order, or the error; `superset` permits unused parameters. */
  function MatchParams<V>(placeholders: seq<string>, p: ParamList<V>, superset: bool): Result<seq<V>, BindError>
    requires p.Valid()
  {
    if "" in placeholders && exists k :: 0 <= k < |placeholders| && placeholders[k] != "" then
      Failure(MixedAnonymous)
    else if HasNumbered(placeholders) && exists k :: 0 <= k < |placeholders| && !IsNumber(placeholders[k]) then
      Failure(MixedNumbered)
    else if "" in placeholders || HasNumbered(placeholders) then
      (if p.names.Some? then Failure(NamedForPositional) else Success(p.values))
    else MatchNamed(placeholders, p, superset)
  }

  function MatchNamed<V>(placeholders: seq<string>, p: ParamList<V>, superset: bool): Result<seq<V>, BindError>
    requires p.Valid()
  {
    if p.names.None? then
      // every name is missing; without placeholders all parameters are unused
      if placeholders != [] then Failure(MissingValue)
      else if !superset && p.values != [] then Failure(UnusedParameter)
      else Success([])
    else
      var names := p.names.value;
      if HasMissing(placeholders, names) then Failure(MissingValue)
      else if !superset && HasUnused(placeholders, names) then Failure(UnusedParameter)
      else Success(seq(|placeholders|, k requires 0 <= k < |placeholders| =>
                                         p.values[FirstIndex(names, placeholders[k]).value]))
  }

  /** Whether binding goes on with a warning that some named parameters are not used. */
  predicate WarnsUnused<V>(placeholders: seq<string>, p: ParamList<V>, superset: bool)
    requires p.Valid()
  {
    && superset && MatchParams(placeholders, p, superset).Success?
    && "" !in placeholders && !HasNumbered(placeholders)
    && if p.names.None? then |p.values| > 0 else HasUnused(placeholders, p.names.value)
  }

  /** The warning is given exactly where the strict mode would refuse the same list. */
  lemma WarningIsTheStrictError<V>(placeholders: seq<string>, p: ParamList<V>)
    requires p.Valid()
    ensures WarnsUnused(placeholders, p, true) <==> MatchParams(placeholders, p, false) == Failure(UnusedParameter)
    ensures !WarnsUnused(placeholders, p, true) ==>
              MatchParams(placeholders, p, true) == MatchParams(placeholders, p, false)
  {
    if p.names.Some? && "" !in placeholders && !HasNumbered(placeholders) {
      var a, b := MatchNamed(placeholders, p, true), MatchNamed(placeholders, p, false);
      assert a.Success? && b.Success? ==> a.value == b.value;
    }
  }

  predicate Distinct(names: seq<string>) {
    forall i, j :: 0 <= i < j < |names| ==> names[i] != names[j]
  }

  /** The same named parameters in any order. */
  ghost predicate SameParams<V>(p: ParamList<V>, q: ParamList<V>)
    requires p.Valid() && q.Valid() && p.names.Some? && q.names.Some?
  {
    && |p.values| == |q.values|
    && (forall i :: 0 <= i < |p.values| ==> InParams(q, p.names.value[i], p.values[i]))
    && (forall i :: 0 <= i < |q.values| ==> InParams(p, q.names.value[i], q.values[i]))
  }

  ghost predicate InParams<V>(p: ParamList<V>, name: string, value: V)
    requires p.Valid() && p.names.Some?
  {
    exists i :: 0 <= i < |p.values| && p.names.value[i] == name && p.values[i] == value
  }

  /** In a permuted list each name still stands for its value. */
  lemma SameLookup<V>(p: ParamList<V>, q: ParamList<V>, x: string)
    requires p.Valid() && q.Valid() && p.names.Some? && q.names.Some?
    requires Distinct(p.names.value) && Distinct(q.names.value) && SameParams(p, q)
    ensures x in p.names.value <==> x in q.names.value
    ensures x in p.names.value ==>
              p.values[FirstIndex(p.names.value, x).value] == q.values[FirstIndex(q.names.value, x).value]
  {
    if x in p.names.value {
      var i := FirstIndex(p.names.value, x).value;
      assert InParams(q, p.names.value[i], p.values[i]);
      var j :| 0 <= j < |q.values| && q.names.value[j] == x && q.values[j] == p.values[i];
      assert FirstIndex(q.names.value, x).value == j;
    }
    if x in q.names.value {
      var j := FirstIndex(q.names.value, x).value;
      assert InParams(p, q.names.value[j], q.values[j]);
    }
  }

  /** With distinct names a parameter is used exactly if a placeholder bears its name. */
  lemma UsedByName(placeholders: seq<string>, names: seq<string>, i: nat)
    requires Distinct(names) && i < |names|
    ensures IsUsed(placeholders, names, i) <==> names[i] in placeholders
  {
    if names[i] in placeholders {
      var k :| 0 <= k < |placeholders| && placeholders[k] == names[i];
      assert FirstIndex(names, placeholders[k]).value == i;
    }
  }

  lemma SameUnused<V>(placeholders: seq<string>, p: ParamList<V>, q: ParamList<V>)
    requires p.Valid() && q.Valid() && p.names.Some? && q.names.Some?
    requires Distinct(p.names.value) && Distinct(q.names.value) && SameParams(p, q)
    requires HasUnused(placeholders, p.names.value)
    ensures HasUnused(placeholders, q.names.value)
  {
    var i :| 0 <= i < |p.values| && !IsUsed(placeholders, p.names.value, i);
    UsedByName(placeholders, p.names.value, i);
    assert InParams(q, p.names.value[i], p.values[i]);
    var j :| 0 <= j < |q.values| && q.names.value[j] == p.names.value[i];
    UsedByName(placeholders, q.names.value, j);
  }

  /** Binding by name does not depend on the order of the list, in success or in failure. */
  lemma BindingIsOrderFree<V>(placeholders: seq<string>, p: ParamList<V>, q: ParamList<V>, superset: bool)
    requires p.Valid() && q.Valid() && p.names.Some? && q.names.Some?
    requires Distinct(p.names.value) && Distinct(q.names.value) && SameParams(p, q)
    ensures MatchParams(placeholders, p, superset) == MatchParams(placeholders, q, superset)
  {
    forall k | 0 <= k < |placeholders|
      ensures placeholders[k] in p.names.value <==> placeholders[k] in q.names.value
      ensures placeholders[k] in p.names.value ==>
                p.values[FirstIndex(p.names.value, placeholders[k]).value] ==
                q.values[FirstIndex(q.names.value, placeholders[k]).value]
    {
      SameLookup(p, q, placeholders[k]);
    }
    if HasUnused(placeholders, p.names.value) {
      SameUnused(placeholders, p, q);
    }
    if HasUnused(placeholders, q.names.value) {
      SameUnused(placeholders, q, p);
    }
    var a, b := MatchNamed(placeholders, p, superset), MatchNamed(placeholders, q, superset);
    if a.Success? && b.Success? {
      assert a.value == b.value;
    }
  }

  /** Parameter `i` is the first one of this name. */
  predicate IsFirst(names: seq<string>, i: nat, name: string) {
    i < |names| && names[i] == name && name !in names[..i]
  }

  /** Parameter `i` is the first one of some placeholder's name. */
  predicate Serves(placeholders: seq<string>, names: seq<string>, i: nat) {
    exists x :: x in placeholders && IsFirst(names, i, x)
  }

  /** Which error is reported, when the placeholders or the kind of the list do not fit. */
  lemma WhichError<V>(placeholders: seq<string>, p: ParamList<V>, superset: bool)
    requires p.Valid()
    ensures var r := MatchParams(placeholders, p, superset);
            var anonymous, numbered := "" in placeholders, HasNumbered(placeholders);
            && (r == Failure(MixedAnonymous) <==> anonymous && !AllAnonymous(placeholders))
            && (r == Failure(MixedNumbered) <==> !anonymous && numbered && !AllNumbered(placeholders))
            && (r == Failure(NamedForPositional) <==>
                p.names.Some? && (AllAnonymous(placeholders) || AllNumbered(placeholders)) && placeholders != [])
            && (r == Failure(MissingValue) <==>
                && !anonymous && !numbered
                && exists x :: x in placeholders && (p.names.None? || x !in p.names.value))
  {
    if placeholders != [] {
      assert placeholders[0] in placeholders;
    }
    assert !IsNumber("");
  }

  /**
   Named placeholders: binding succeeds exactly if every placeholder has a parameter of its
   name and, in strict mode, every parameter is the first one of some placeholder's name;
   placeholder `k` then gets the first parameter of its name.
   */
  lemma NamedBinding<V>(placeholders: seq<string>, p: ParamList<V>, superset: bool)
    requires p.Valid() && p.names.Some? && "" !in placeholders && !HasNumbered(placeholders)
    ensures var r := MatchParams(placeholders, p, superset);
            && (r.Success? <==>
                && (forall x :: x in placeholders ==> x in p.names.value)
                && (superset || forall i :: 0 <= i < |p.values| ==> Serves(placeholders, p.names.value, i)))
            && (r.Success? ==>
                  && |r.value| == |placeholders|
                  && forall i, k :: 0 <= i < |p.values| && 0 <= k < |placeholders| ==>
                                      (IsFirst(p.names.value, i, placeholders[k]) ==> r.value[k] == p.values[i]))
  {
    var names := p.names.value;
    forall i, x | 0 <= i < |names| ensures IsFirst(names, i, x) <==> FirstIndex(names, x) == Some(i) {}
    forall i | 0 <= i < |names|
      ensures IsUsed(placeholders, names, i) <==> Serves(placeholders, names, i)
    {
      if x :| x in placeholders && IsFirst(names, i, x) {
        var k :| 0 <= k < |placeholders| && placeholders[k] == x;
        assert FirstIndex(names, placeholders[k]) == Some(i);
      }
    }
  }

  predicate AllAnonymous(placeholders: seq<string>) {
    forall k :: 0 <= k < |placeholders| ==> placeholders[k] == ""
  }

  predicate AllNumbered(placeholders: seq<string>) {
    forall k :: 0 <= k < |placeholders| ==> IsNumber(placeholders[k])
  }

  /** Positional placeholders take unnamed parameters as they come, if all are of the same kind. */
  lemma PositionalBinding<V>(placeholders: seq<string>, p: ParamList<V>, superset: bool)
    requires p.Valid() && ("" in placeholders || HasNumbered(placeholders))
    ensures var r := MatchParams(placeholders, p, superset);
            && (r.Success? <==>
                && p.names.None?
                && (AllAnonymous(placeholders) || AllNumbered(placeholders)))
            && (r.Success? ==> r.value == p.values)
  {
    assert "" in placeholders ==>
        exists k :: 0 <= k < |placeholders| && placeholders[k] == "" && !IsNumber(placeholders[k]);
  }

  /** Every parameter has one value for each of the groups. */
  predicate Rectangular<T>(params: seq<seq<T>>, groups: nat) {
    forall j :: 0 <= j < |params| ==> |params[j]| == groups
  }

  /** DbResult::validate_params(): all parameters are as long as the first one. */
  method ValidateParams<T>(params: seq<seq<T>>) returns (ok: bool)
    ensures ok <==> params == [] || Rectangular(params, |params[0]|)
  {
    ok := true;
    if |params| != 0 {
      var n := |params[0]|;
      var j := 1;
      while j < |params|
        invariant 1 <= j <= |params|
        invariant forall i :: 0 <= i < j ==> |params[i]| == n
      {
        if |params[j]| != n {
          return false;
        }
        j := j + 1;
      }
    }
  }
}
