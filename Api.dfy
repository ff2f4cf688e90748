/**
 * The shapes of the site's JSON API as the adapter reads them, JavaScript's
 * truthiness over optional string fields, and per-item normalisation of a list.
 */
module Api {
  import opened Wrappers

  /** One record of the novel-listing endpoint; every field may be absent. */
  datatype ApiNovel = ApiNovel(
    title: Option<string>,
    post_title: Option<string>,
    name: Option<string>,
    novelImage: Option<string>,
    thumbnail: Option<string>,
    image: Option<string>,
    permalink: Option<string>,
    link: Option<string>,
    url: Option<string>)

  /** One record of the chapter-list endpoint; every field may be absent. */
  datatype ApiChapter = ApiChapter(
    post_title: Option<string>,
    title: Option<string>,
    permalink: Option<string>,
    url: Option<string>,
    link: Option<string>,
    post_date: Option<string>,
    date: Option<string>)

  /**
   * A decoded response body: a bare JSON array, an object whose `data` member
   * may hold the array, or a request or decode that failed (and was caught).
   */
  datatype Payload<T> = Bare(items: seq<T>) | Wrapped(data: Option<seq<T>>) | Failed

  /** `Array.isArray(data) ? data : data.data || []`, with a caught failure giving no items. */
  function Items<T>(payload: Payload<T>): seq<T>
  {
    match payload
    case Bare(items) => items
    case Wrapped(data) => data.GetOr([])
    case Failed => []
  }

  /** JavaScript truthiness of an optional string: absent and "" are both false. */
  predicate Truthy(field: Option<string>) {
    field.Some? && field.value != ""
  }

  /**
   * `a || b || ...` over optional strings: the first truthy field, or `None`
   * when there is none. JavaScript yields the last operand instead (`""` or
   * `undefined`). Every use in the adapter either tests the result for
   * truthiness, ends the chain with a truthy default, or ends it with `''`,
   * which `GetOr("")` reproduces, so mapping that operand to `None` loses nothing.
   */
  function FirstTruthy(chain: seq<Option<string>>): (r: Option<string>)
    ensures r.Some? ==> r.value != ""
  {
    if chain == [] then None
    else if Truthy(chain[0]) then chain[0]
    else FirstTruthy(chain[1..])
  }

  /** The chain yields nothing exactly when no operand is truthy, and otherwise the first truthy operand. */
  lemma {:induction false} FirstTruthySpec(chain: seq<Option<string>>)
    ensures var r := FirstTruthy(chain);
      (r.None? <==> forall i :: 0 <= i < |chain| ==> !Truthy(chain[i]))
      && (r.Some? ==> exists i :: 0 <= i < |chain| && chain[i] == r && forall j :: 0 <= j < i ==> !Truthy(chain[j]))
  {
    if chain != [] && !Truthy(chain[0]) {
      FirstTruthySpec(chain[1..]);
      assert forall i :: 1 <= i < |chain| ==> chain[i] == chain[1..][i - 1];
      if FirstTruthy(chain).Some? {
        var i :| 0 <= i < |chain[1..]| && chain[1..][i] == FirstTruthy(chain)
          && forall j :: 0 <= j < i ==> !Truthy(chain[1..][j]);
        assert chain[i + 1] == FirstTruthy(chain);
      }
    }
  }

  lemma FirstTruthyOfOne(a: Option<string>)
    ensures FirstTruthy([a]) == if Truthy(a) then a else None
  {
    assert [a][1..] == [];
  }

  /** `a || b`, read as the first truthy operand. */
  lemma FirstTruthyOfTwo(a: Option<string>, b: Option<string>)
    ensures FirstTruthy([a, b]) == if Truthy(a) then a else if Truthy(b) then b else None
  {
    assert [a, b][1..] == [b];
    FirstTruthyOfOne(b);
  }

  /** `a || b || c`, read as the first truthy operand. */
  lemma FirstTruthyOfThree(a: Option<string>, b: Option<string>, c: Option<string>)
    ensures FirstTruthy([a, b, c]) == if Truthy(a) then a else if Truthy(b) then b else if Truthy(c) then c else None
  {
    assert [a, b, c][1..] == [b, c];
    FirstTruthyOfTwo(b, c);
  }

  /**
   * `items.forEach(x => { if (keep) out.push(f(x)) })`: maps each item through
   * `entry` and keeps the results that exist, in input order.
   */
  function FilterMap<T, U>(items: seq<T>, entry: T -> Option<U>): (out: seq<U>)
    ensures |out| <= |items|
  {
    if items == [] then []
    else
      var last := items[|items| - 1];
      FilterMap(items[..|items| - 1], entry) + (if entry(last).Some? then [entry(last).value] else [])
  }

  /** Every item with an entry contributes it, and every output comes from some item. */
  lemma {:induction false} FilterMapSpec<T, U>(items: seq<T>, entry: T -> Option<U>)
    ensures forall x :: x in items && entry(x).Some? ==> entry(x).value in FilterMap(items, entry)
    ensures forall y :: y in FilterMap(items, entry) ==> exists x :: x in items && entry(x) == Some(y)
  {
    if items != [] {
      var init := items[..|items| - 1];
      var last := items[|items| - 1];
      assert items == init + [last];
      FilterMapSpec(init, entry);
    }
  }

  /** Normalising a concatenation normalises each half: order is kept, items are independent. */
  lemma {:induction false} FilterMapAppend<T, U>(a: seq<T>, b: seq<T>, entry: T -> Option<U>)
    ensures FilterMap(a + b, entry) == FilterMap(a, entry) + FilterMap(b, entry)
  {
    if b == [] {
      assert a + b == a;
    } else {
      var init := b[..|b| - 1];
      assert (a + b)[..|a + b| - 1] == a + init;
      FilterMapAppend(a, init, entry);
    }
  }

  /** The normalisation of one more item extends that of the prefix by the item's entry, if any. */
  lemma FilterMapSnoc<T, U>(items: seq<T>, i: nat, entry: T -> Option<U>)
    requires i < |items|
    ensures FilterMap(items[..i + 1], entry) ==
      FilterMap(items[..i], entry) + (if entry(items[i]).Some? then [entry(items[i]).value] else [])
  {
    assert items[..i + 1][..i] == items[..i];
  }

  /**
   * `items.forEach(x => { if (keep(x)) result = value(x) })`: the value of the
   * last item that passes `keep`, since each one overwrites the previous.
   */
  function LastMatch<T, U>(items: seq<T>, keep: T -> bool, value: T -> U): Option<U>
  {
    if items == [] then None
    else
      var n := |items| - 1;
      if keep(items[n]) then Some(value(items[n])) else LastMatch(items[..n], keep, value)
  }

  /** The loop leaves a value exactly when some item passes `keep`. */
  lemma {:induction false} LastMatchSpec<T, U>(items: seq<T>, keep: T -> bool, value: T -> U)
    ensures LastMatch(items, keep, value).None? <==> forall k :: 0 <= k < |items| ==> !keep(items[k])
  {
    if items != [] {
      var n := |items| - 1;
      LastMatchSpec(items[..n], keep, value);
      assert forall k :: 0 <= k < n ==> items[..n][k] == items[k];
    }
  }

  /** One more item overwrites the result exactly when it passes `keep`. */
  lemma LastMatchSnoc<T, U>(items: seq<T>, keep: T -> bool, value: T -> U, s: nat)
    requires s < |items|
    ensures LastMatch(items[..s + 1], keep, value) ==
      if keep(items[s]) then Some(value(items[s])) else LastMatch(items[..s], keep, value)
  {
    assert items[..s + 1][..s] == items[..s];
  }

  /** The result is the value of the last item that passes `keep`. */
  lemma {:induction false} LastMatchIsLast<T, U>(items: seq<T>, keep: T -> bool, value: T -> U, k: nat)
    requires k < |items| && keep(items[k])
    requires forall m :: k < m < |items| ==> !keep(items[m])
    ensures LastMatch(items, keep, value) == Some(value(items[k]))
  {
    var n := |items| - 1;
    var init := items[..n];
    if k < n {
      assert init[k] == items[k];
      forall m | k < m < n
        ensures !keep(init[m])
      {
        assert init[m] == items[m];
      }
      LastMatchIsLast(init, keep, value, k);
    }
  }

  /** A bare array and an object wrapping the same array in `data` give the same items. */
  lemma DualShape<T>(items: seq<T>)
    ensures Items(Bare(items)) == Items(Wrapped(Some(items))) == items
    ensures Items(Payload<T>.Wrapped(None)) == [] && Items(Payload<T>.Failed) == []
  {
  }
}
