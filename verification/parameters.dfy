/**
 * The request-parameter helpers: which keyword arguments are worth sending,
 * whether at least one of them is set, and how values are encoded for a
 * query string.
 *
 * Keyword arguments are an ordered sequence of (name, value) pairs, in the
 * order the caller wrote them; a returned dict is the same kind of sequence,
 * in insertion order.
 */
module Parameters {
  import opened PyValue
  import Text

  type Kwargs = seq<(string, Value)>

  /** Python never passes the same keyword twice. */
  predicate DistinctKeys(kw: Kwargs) {
    forall i, j | 0 <= i < j < |kw| :: kw[i].0 != kw[j].0
  }

  function Keys(kw: Kwargs): set<string> {
    set k | 0 <= k < |kw| :: kw[k].0
  }

  /** The entries of `kw` whose value is truthy, in their original order. */
  function TruthyEntries(kw: Kwargs): Kwargs {
    if kw == [] then []
    else (if Truthy(kw[0].1) then [kw[0]] else []) + TruthyEntries(kw[1..])
  }

  /** Some keyword argument has a truthy value. */
  predicate AnyTruthy(kw: Kwargs) {
    exists k :: 0 <= k < |kw| && Truthy(kw[k].1)
  }

  /** The (key, value) tuple of the first truthy argument, or (None, None). */
  function FirstTruthy(kw: Kwargs): (Value, Value) {
    if kw == [] then (None, None)
    else if Truthy(kw[0].1) then (Str(kw[0].0), kw[0].1)
    else FirstTruthy(kw[1..])
  }

  /** `a` can be obtained from `b` by deleting elements. */
  predicate IsSubsequence<T(==)>(a: seq<T>, b: seq<T>) {
    if a == [] then true
    else if b == [] then false
    else if a[0] == b[0] then IsSubsequence(a[1..], b[1..])
    else IsSubsequence(a, b[1..])
  }

  // ---------------------------------------------------------------------
  // build_optional_params

  /** `build_optional_params(**kwargs)`: keep the arguments whose value is truthy. */
  method BuildOptionalParams(kwargs: Kwargs) returns (params: Kwargs)
    requires DistinctKeys(kwargs)
    ensures params == TruthyEntries(kwargs)
    ensures DistinctKeys(params)
  {
    params := [];
    for i := 0 to |kwargs|
      invariant params + TruthyEntries(kwargs[i..]) == TruthyEntries(kwargs)
    {
      var (k, v) := kwargs[i];
      assert kwargs[i..][1..] == kwargs[i + 1..];
      if Truthy(v) {
        params := params + [(k, v)];
      }
    }
    assert kwargs[|kwargs|..] == [];
    TruthyEntriesDistinct(kwargs);
  }

  /** An entry is kept exactly when it is an argument with a truthy value. */
  lemma {:induction false} TruthyEntriesMembership(kw: Kwargs, e: (string, Value))
    ensures e in TruthyEntries(kw) <==> e in kw && Truthy(e.1)
  {
    if kw != [] {
      TruthyEntriesMembership(kw[1..], e);
      assert kw == [kw[0]] + kw[1..];
    }
  }

  /** Every kept value is truthy: 0, "", False, None and [] are all dropped. */
  lemma {:induction false} TruthyEntriesAllTruthy(kw: Kwargs)
    ensures forall k | 0 <= k < |TruthyEntries(kw)| :: Truthy(TruthyEntries(kw)[k].1)
  {
    forall k | 0 <= k < |TruthyEntries(kw)| ensures Truthy(TruthyEntries(kw)[k].1) {
      TruthyEntriesMembership(kw, TruthyEntries(kw)[k]);
    }
  }

  /** The kept entries appear in the same order as the arguments. */
  lemma {:induction false} TruthyEntriesOrdered(kw: Kwargs)
    ensures IsSubsequence(TruthyEntries(kw), kw)
  {
    if kw != [] {
      TruthyEntriesOrdered(kw[1..]);
      var rest := TruthyEntries(kw[1..]);
      if Truthy(kw[0].1) {
        assert ([kw[0]] + rest)[1..] == rest;
      } else if rest != [] {
        // the first kept entry is truthy, so it is not the falsy kw[0]
        TruthyEntriesMembership(kw[1..], rest[0]);
        assert [] + rest == rest;
      }
    }
  }

  /** Only keys that were passed in come out. */
  lemma {:induction false} TruthyEntriesKeys(kw: Kwargs)
    ensures Keys(TruthyEntries(kw)) <= Keys(kw)
    ensures Keys(TruthyEntries(kw)) == set k | 0 <= k < |kw| && Truthy(kw[k].1) :: kw[k].0
  {
    forall key | key in Keys(TruthyEntries(kw))
      ensures exists k :: 0 <= k < |kw| && Truthy(kw[k].1) && kw[k].0 == key
    {
      var j :| 0 <= j < |TruthyEntries(kw)| && TruthyEntries(kw)[j].0 == key;
      TruthyEntriesMembership(kw, TruthyEntries(kw)[j]);
    }
    forall k | 0 <= k < |kw| && Truthy(kw[k].1) ensures kw[k].0 in Keys(TruthyEntries(kw)) {
      TruthyEntriesMembership(kw, kw[k]);
    }
  }

  /** Filtering the result again changes nothing. */
  lemma {:induction false} TruthyEntriesIdempotent(kw: Kwargs)
    ensures TruthyEntries(TruthyEntries(kw)) == TruthyEntries(kw)
  {
    if kw != [] {
      TruthyEntriesIdempotent(kw[1..]);
      var rest := TruthyEntries(kw[1..]);
      if Truthy(kw[0].1) {
        assert ([kw[0]] + rest)[1..] == rest;
      } else {
        assert [] + rest == rest;
      }
    }
  }

  /** The result is a well-formed dict: no key twice. */
  lemma {:induction false} TruthyEntriesDistinct(kw: Kwargs)
    requires DistinctKeys(kw)
    ensures DistinctKeys(TruthyEntries(kw))
  {
    if kw != [] {
      TruthyEntriesDistinct(kw[1..]);
      if Truthy(kw[0].1) {
        var rest := TruthyEntries(kw[1..]);
        forall j | 0 <= j < |rest| ensures rest[j].0 != kw[0].0 {
          TruthyEntriesMembership(kw[1..], rest[j]);
          var m :| 0 <= m < |kw[1..]| && kw[1..][m] == rest[j];
          assert kw[m + 1] == rest[j];
        }
      }
    }
  }

  /** The boundary case: None, "", 0 and False are dropped along with the rest of the falsy values. */
  lemma DroppedFalsyExample()
    ensures TruthyEntries([("a", None), ("b", Str("")), ("c", Str("x")), ("d", Int(0)), ("e", Bool(false))])
         == [("c", Str("x"))]
  {
  }

  // ---------------------------------------------------------------------
  // one_needed and which_used

  /** A call that either returns a value or raises an exception. */
  datatype Outcome<T> = Returned(value: T) | Raised

  /** `one_needed(**kwargs)`: True if some argument is truthy; otherwise it raises. */
  method OneNeeded(kwargs: Kwargs) returns (r: Outcome<bool>)
    ensures r.Returned? <==> AnyTruthy(kwargs)
    ensures r.Returned? ==> r.value
  {
    var oneUsed := false;
    for i := 0 to |kwargs|
      invariant oneUsed <==> AnyTruthy(kwargs[..i])
    {
      if Truthy(kwargs[i].1) {
        oneUsed := true;
      }
      assert forall k | 0 <= k < i :: kwargs[..i + 1][k] == kwargs[..i][k];
    }
    assert kwargs[..|kwargs|] == kwargs;
    if !oneUsed {
      return Raised;
    }
    return Returned(oneUsed);
  }

  /** `which_used(**kwargs)`: the first truthy argument as a (key, value) tuple, or (None, None). */
  method WhichUsed(kwargs: Kwargs) returns (r: (Value, Value))
    ensures r == FirstTruthy(kwargs)
  {
    for i := 0 to |kwargs|
      invariant FirstTruthy(kwargs[i..]) == FirstTruthy(kwargs)
    {
      var (k, v) := kwargs[i];
      assert kwargs[i..][1..] == kwargs[i + 1..];
      if Truthy(v) {
        return (Str(k), v);
      }
    }
    assert kwargs[|kwargs|..] == [];
    return (None, None);
  }

  /** The result is (None, None) exactly when no argument is truthy; otherwise it is the
      first truthy argument, every earlier one being falsy. */
  lemma {:induction false} FirstTruthyIsFirst(kw: Kwargs)
    ensures FirstTruthy(kw) == (None, None) <==> !AnyTruthy(kw)
    ensures AnyTruthy(kw) ==>
      exists i :: 0 <= i < |kw| && Truthy(kw[i].1) && FirstTruthy(kw) == (Str(kw[i].0), kw[i].1)
        && forall j | 0 <= j < i :: !Truthy(kw[j].1)
  {
    if kw != [] {
      FirstTruthyIsFirst(kw[1..]);
      if !Truthy(kw[0].1) {
        if AnyTruthy(kw) {
          var m :| 0 <= m < |kw| && Truthy(kw[m].1);
          assert kw[1..][m - 1] == kw[m];
          var i :| 0 <= i < |kw[1..]| && Truthy(kw[1..][i].1)
            && FirstTruthy(kw[1..]) == (Str(kw[1..][i].0), kw[1..][i].1)
            && forall j | 0 <= j < i :: !Truthy(kw[1..][j].1);
          assert forall j | 1 <= j < i + 1 :: kw[j] == kw[1..][j - 1];
          assert kw[i + 1] == kw[1..][i];
        } else {
          assert forall k | 0 <= k < |kw[1..]| :: kw[1..][k] == kw[k + 1];
        }
      }
    }
  }

  /** `which_used` names the first entry that `build_optional_params` keeps. */
  lemma {:induction false} FirstTruthyHeadsTruthyEntries(kw: Kwargs)
    ensures FirstTruthy(kw) ==
      if TruthyEntries(kw) == [] then (None, None)
      else (Str(TruthyEntries(kw)[0].0), TruthyEntries(kw)[0].1)
  {
    if kw != [] {
      FirstTruthyHeadsTruthyEntries(kw[1..]);
    }
  }

  /** `one_needed` returns exactly when `build_optional_params` keeps something,
      which is exactly when `which_used` does not answer (None, None). */
  lemma {:induction false} AnyTruthyAgreement(kw: Kwargs)
    ensures AnyTruthy(kw) <==> TruthyEntries(kw) != []
    ensures AnyTruthy(kw) <==> FirstTruthy(kw) != (None, None)
  {
    FirstTruthyIsFirst(kw);
    FirstTruthyHeadsTruthyEntries(kw);
    if TruthyEntries(kw) != [] {
      TruthyEntriesMembership(kw, TruthyEntries(kw)[0]);
    }
  }

  // ---------------------------------------------------------------------
  // is_invalid_choice

  /** `is_invalid_choice(value, choices)`: a truthy value that equals none of the choices. */
  function IsInvalidChoice(value: Value, choices: seq<Value>): (r: bool)
    ensures r <==> Truthy(value) && forall k | 0 <= k < |choices| :: !PyEq(value, choices[k])
  {
    Truthy(value) && !In(value, choices)
  }

  /** A falsy value is never reported, whatever the choices. */
  lemma FalsyNeverInvalid(value: Value, choices: seq<Value>)
    requires !Truthy(value)
    ensures !IsInvalidChoice(value, choices)
  {
  }

  /** A value listed among the choices is never reported. */
  lemma {:induction false} ListedChoiceIsValid(value: Value, choices: seq<Value>)
    requires value in choices
    ensures !IsInvalidChoice(value, choices)
  {
    var k :| 0 <= k < |choices| && choices[k] == value;
    PyEqReflexive(value);
  }

  /** Python equality lets True stand for the choice 1. */
  lemma TrueMatchesOneExample()
    ensures !IsInvalidChoice(Bool(true), [Int(1), Int(2)])
    ensures IsInvalidChoice(Int(3), [Int(1), Int(2)])
  {
  }

  // ---------------------------------------------------------------------
  // encoders for query strings

  /** `bool_to_int(boolean)`: 1 for a truthy argument, 0 otherwise. */
  function BoolToInt(boolean: Value): (r: int)
    ensures r == 0 || r == 1
    ensures r == 1 <==> Truthy(boolean)
  {
    if Truthy(boolean) then 1 else 0
  }

  /** Reading the encoded flag back as a Python boolean gives the original truthiness;
      for a real bool it is the integer Python already equates it with. */
  lemma BoolToIntRoundTrip(boolean: Value)
    ensures Truthy(Int(BoolToInt(boolean))) == Truthy(boolean)
    ensures boolean.Bool? ==> PyEq(Int(BoolToInt(boolean)), boolean)
  {
  }

  /** `comma_delimit(items)`: `','.join(items)`. */
  function CommaDelimit(items: seq<string>): (r: string)
    ensures items == [] ==> r == ""
    ensures |items| == 1 ==> r == items[0]
  {
    Text.Join(items, ',')
  }

  /** n items give n - 1 commas more than the items themselves contain. */
  lemma CommaDelimitCommas(items: seq<string>)
    requires |items| >= 1
    ensures Text.Count(CommaDelimit(items), ',') == |items| - 1 + Text.CountAll(items, ',')
  {
    Text.CountJoin(items, ',');
  }

  /** Splitting on ',' recovers the items when none of them contains a comma. */
  lemma CommaDelimitSplit(items: seq<string>)
    requires |items| >= 1
    requires forall k | 0 <= k < |items| :: ',' !in items[k]
    ensures Text.Split(CommaDelimit(items), ',') == items
  {
    Text.SplitJoin(items, ',');
  }

  /** `list(map(str, int_list))` */
  function Decimals(xs: seq<int>): (r: seq<string>)
    ensures |r| == |xs|
    ensures forall k | 0 <= k < |xs| :: r[k] == Text.IntToDecimal(xs[k])
  {
    if xs == [] then [] else [Text.IntToDecimal(xs[0])] + Decimals(xs[1..])
  }

  /** `int_list_to_string(int_list)`: an empty list gives "", and n numbers give exactly
      n - 1 commas, between which stand their decimal renderings. */
  function IntListToString(intList: seq<int>): (r: string)
    ensures intList == [] ==> r == ""
    ensures intList != [] ==> Text.Count(r, ',') == |intList| - 1
    ensures intList != [] ==> Text.Split(r, ',') == Decimals(intList)
  {
    var items := Decimals(intList);
    if items == [] then CommaDelimit(items)
    else
      CommaDelimitCommas(items);
      NoCommasInDecimals(items);
      CommaDelimitSplit(items);
      CommaDelimit(items)
  }

  lemma {:induction false} NoCommasInDecimals(items: seq<string>)
    requires forall k | 0 <= k < |items| :: ',' !in items[k]
    ensures Text.CountAll(items, ',') == 0
  {
    if items != [] {
      Text.CountZero(items[0], ',');
      NoCommasInDecimals(items[1..]);
    }
  }

  /** Splitting the string on ',' and reading each piece with `int()` gives back the list. */
  lemma IntListRoundTrip(xs: seq<int>)
    requires xs != []
    ensures var parts := Text.Split(IntListToString(xs), ',');
      |parts| == |xs| &&
      forall k | 0 <= k < |xs| :: Text.IsIntLiteral(parts[k]) && Text.ParseInt(parts[k]) == xs[k]
  {
    forall k | 0 <= k < |xs|
      ensures Text.IsIntLiteral(Decimals(xs)[k]) && Text.ParseInt(Decimals(xs)[k]) == xs[k]
    {
      Text.IntToDecimalRoundTrip(xs[k]);
    }
  }

  /** The example from the documentation: [0, 1, 4] gives "0,1,4". */
  lemma IntListExample()
    ensures IntListToString([0, 1, 4]) == "0,1,4"
  {
  }
}
