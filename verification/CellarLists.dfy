/** Lists of managed cellars: addresses, their canonical texts, and the order they are stored in. */
module CellarLists {
  import opened AxelarProxy
  import opened CorkTypes

  function Addresses(env: Env, texts: seq<string>): (r: seq<Address>)
    ensures |r| == |texts| && forall i :: 0 <= i < |texts| ==> r[i] == env.address(texts[i])
  {
    seq(|texts|, i requires 0 <= i < |texts| => env.address(texts[i]))
  }

  function Texts(env: Env, xs: seq<Address>): (r: seq<string>)
    ensures |r| == |xs| && forall i :: 0 <= i < |xs| ==> r[i] == env.text(xs[i])
  {
    seq(|xs|, i requires 0 <= i < |xs| => env.text(xs[i]))
  }

  /** Append each of `news` that is not there yet. */
  function AddNew(xs: seq<Address>, news: seq<Address>): seq<Address> {
    if news == [] then xs else
      var before := AddNew(xs, news[..|news| - 1]);
      var x := news[|news| - 1];
      if x in before then before else before + [x]
  }

  /** The members of `xs` that are not in `gone`, in their order. */
  function Without(xs: seq<Address>, gone: seq<Address>): seq<Address> {
    if xs == [] then [] else
      var before := Without(xs[..|xs| - 1], gone);
      var x := xs[|xs| - 1];
      if x in gone then before else before + [x]
  }

  /** Code-unit order of texts. */
  predicate TextBefore(a: string, b: string) {
    b != [] && (a == [] || a[0] < b[0] || (a[0] == b[0] && TextBefore(a[1..], b[1..])))
  }

  /** Put `x` before the first text that it precedes. */
  function InsertText(xs: seq<string>, x: string): seq<string> {
    if xs == [] then [x]
    else if TextBefore(x, xs[0]) then [x] + xs
    else [xs[0]] + InsertText(xs[1..], x)
  }

  function SortTexts(xs: seq<string>): seq<string> {
    if xs == [] then [] else InsertText(SortTexts(xs[..|xs| - 1]), xs[|xs| - 1])
  }

  // ----- a managed list is sorted, without repetition, and canonical -----

  ghost predicate StrictlySorted(xs: seq<string>) {
    forall i, j :: 0 <= i < j < |xs| ==> TextBefore(xs[i], xs[j])
  }

  ghost predicate Distinct<T>(xs: seq<T>) {
    forall i, j :: 0 <= i < j < |xs| ==> xs[i] != xs[j]
  }

  /** The texts agree up to `i`, where `a` has the smaller code unit. */
  ghost predicate SmallerAt(a: string, b: string, i: nat) {
    i < |a| && i < |b| && a[..i] == b[..i] && a[i] < b[i]
  }

  /** A text precedes those that continue it and those with a larger code unit where they first differ. */
  lemma {:induction false} TextBeforeExactly(a: string, b: string)
    ensures TextBefore(a, b) <==> (|a| < |b| && a == b[..|a|]) || exists i :: SmallerAt(a, b, i)
  {
    if a != [] && b != [] && a[0] == b[0] {
      TextBeforeExactly(a[1..], b[1..]);
      assert a == [a[0]] + a[1..] && b == [b[0]] + b[1..];
      assert |a| < |b| ==> b[..|a|] == [b[0]] + b[1..][..|a| - 1];
      forall i: nat | 0 < i < |a| && i < |b| ensures SmallerAt(a, b, i) <==> SmallerAt(a[1..], b[1..], i - 1) {
        assert a[..i] == [a[0]] + a[1..][..i - 1] && b[..i] == [b[0]] + b[1..][..i - 1];
      }
      if i: nat :| SmallerAt(a[1..], b[1..], i) { assert SmallerAt(a, b, i + 1); }
    } else if a != [] && b != [] {
      if a[0] < b[0] { assert SmallerAt(a, b, 0); }
      assert forall i: nat :: 0 < i < |a| && i < |b| ==> a[..i][0] != b[..i][0];
    }
  }

  lemma {:induction false} TextBeforeTransitive(a: string, b: string, c: string)
    requires TextBefore(a, b) && TextBefore(b, c)
    ensures TextBefore(a, c)
  {
    if a != [] && a[0] == b[0] && b[0] == c[0] { TextBeforeTransitive(a[1..], b[1..], c[1..]); }
  }

  lemma {:induction false} TextBeforeTotal(a: string, b: string)
    ensures TextBefore(a, b) || TextBefore(b, a) || a == b
  {
    if a != [] && b != [] && a[0] == b[0] {
      TextBeforeTotal(a[1..], b[1..]);
      assert a[1..] == b[1..] ==> a == [a[0]] + a[1..] == b;
    }
  }

  /** Inserting a new text keeps the order and adds exactly that text. */
  lemma {:induction false} InsertTextKeepsOrder(xs: seq<string>, x: string)
    requires StrictlySorted(xs) && x !in xs
    ensures StrictlySorted(InsertText(xs, x))
    ensures forall y :: y in InsertText(xs, x) <==> y in xs || y == x
  {
    hide TextBefore;
    if xs != [] {
      var inserted := InsertText(xs, x);
      TextBeforeTotal(x, xs[0]);
      if TextBefore(x, xs[0]) {
        forall j | 0 <= j < |xs| ensures TextBefore(x, xs[j]) {
          if j > 0 { TextBeforeTransitive(x, xs[0], xs[j]); }
        }
      } else {
        var rest := InsertText(xs[1..], x);
        InsertTextKeepsOrder(xs[1..], x);
        forall j | 0 <= j < |rest| ensures TextBefore(xs[0], rest[j]) {
          assert rest[j] in rest;
          if rest[j] != x {
            var i :| 0 <= i < |xs[1..]| && xs[1..][i] == rest[j];
            assert TextBefore(xs[0], xs[i + 1]);
          }
        }
        assert inserted == [xs[0]] + rest;
        assert xs == [xs[0]] + xs[1..];
      }
    }
  }

  lemma {:induction false} SortTextsSorts(xs: seq<string>)
    requires Distinct(xs)
    ensures StrictlySorted(SortTexts(xs))
    ensures forall y :: y in SortTexts(xs) <==> y in xs
  {
    if xs != [] {
      var before, x := xs[..|xs| - 1], xs[|xs| - 1];
      SortTextsSorts(before);
      assert x !in before;
      InsertTextKeepsOrder(SortTexts(before), x);
      assert xs == before + [x];
    }
  }

  lemma {:induction false} AddNewAdds(xs: seq<Address>, news: seq<Address>)
    requires Distinct(xs)
    ensures Distinct(AddNew(xs, news))
    ensures forall a :: a in AddNew(xs, news) <==> a in xs || a in news
  {
    if news != [] {
      AddNewAdds(xs, news[..|news| - 1]);
      assert news == news[..|news| - 1] + [news[|news| - 1]];
    }
  }

  /** Removal keeps exactly the others, in their order. */
  lemma {:induction false} WithoutRemoves(env: Env, xs: seq<Address>, gone: seq<Address>)
    ensures forall a :: a in Without(xs, gone) <==> a in xs && a !in gone
    ensures StrictlySorted(Texts(env, xs)) ==> StrictlySorted(Texts(env, Without(xs, gone)))
  {
    hide TextBefore;
    if xs != [] {
      var n := |xs| - 1;
      var init, kept := xs[..n], Without(xs[..n], gone);
      WithoutRemoves(env, init, gone);
      assert xs == init + [xs[n]];
      if StrictlySorted(Texts(env, xs)) && xs[n] !in gone {
        forall i, j | 0 <= i < j < n ensures TextBefore(Texts(env, init)[i], Texts(env, init)[j]) {
          assert TextBefore(Texts(env, xs)[i], Texts(env, xs)[j]);
        }
        forall i | 0 <= i < |kept| ensures TextBefore(env.text(kept[i]), env.text(xs[n])) {
          assert kept[i] in kept;
          var k :| 0 <= k < n && init[k] == kept[i];
          assert TextBefore(Texts(env, xs)[k], Texts(env, xs)[n]);
        }
      } else if StrictlySorted(Texts(env, xs)) {
        forall i, j | 0 <= i < j < n ensures TextBefore(Texts(env, init)[i], Texts(env, init)[j]) {
          assert TextBefore(Texts(env, xs)[i], Texts(env, xs)[j]);
        }
      }
    }
  }
}
