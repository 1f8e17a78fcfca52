/** The lists of managed cellars, and the default subscriptions that change with them. */
module CorkCellars {
  import opened AxelarProxy
  import opened CellarLists
  import opened CorkBlock
  import opened CorkRelay
  import opened CorkRuns
  import opened CorkSpec
  import opened CorkTheorems
  import opened CorkTypes
  import opened Integers
  import opened Outcomes

  // ----- one change -----

  /** A stored list is strictly sorted and holds canonical texts. */
  ghost predicate Canonical(env: Env, texts: seq<string>) {
    StrictlySorted(texts) && forall t :: t in texts ==> env.text(env.address(t)) == t
  }

  lemma CanonicalTexts(env: Env, texts: seq<string>)
    requires Faithful(env) && Canonical(env, texts)
    ensures Texts(env, Addresses(env, texts)) == texts && Distinct(Addresses(env, texts))
  {
    hide TextBefore, StrictlySorted;
    assert Texts(env, Addresses(env, texts)) == texts;
    forall i, j | 0 <= i < j < |texts| ensures env.address(texts[i]) != env.address(texts[j]) {
      SortedDiffer(texts, i, j);
    }
  }

  lemma SortedDiffer(texts: seq<string>, i: nat, j: nat)
    requires StrictlySorted(texts) && i < j < |texts|
    ensures texts[i] != texts[j]
  {
    NotBeforeItself(texts[i]);
  }

  lemma {:induction false} NotBeforeItself(a: string)
    ensures !TextBefore(a, a)
  {
    if a != [] { NotBeforeItself(a[1..]); }
  }

  /** The addresses in a list of texts. */
  function Managed(env: Env, s: State, chain: uint64): set<Address> { set a | a in Cellars(env, s, chain) }

  /** The addresses that a proposal lists. */
  function Listed(env: Env, p: CellarIdSet): set<Address> { set a | a in Addresses(env, p.ids) }

  /** An addition manages exactly the old and the proposed cellars, once each, and keeps the list sorted; exactly the new
      ones get the publisher as their default subscription. */
  lemma AddCellarsExactly(env: Env, s: State, chain: uint64, p: CellarIdSet, publisher: string, publisherFound: bool)
    requires Faithful(env) && ConfigsKeyed(s) && AddManagedCellars(env, s, chain, p, publisher, publisherFound).Ok?
    requires chain in s.cellars ==> Canonical(env, s.cellars[chain])
    ensures var t := AddManagedCellars(env, s, chain, p, publisher, publisherFound).value;
            && t == s.(cellars := t.cellars, subscriptions := t.subscriptions)
            && chain in t.cellars && Canonical(env, t.cellars[chain])
            && Managed(env, t, chain) == Managed(env, s, chain) + Listed(env, p)
            && (forall c :: c in t.cellars && c != chain ==> c in s.cellars && t.cellars[c] == s.cellars[c])
            && forall c: uint64, a: Address :: Lookup(t.subscriptions, (c, a)) ==
                 if c == chain && a in Listed(env, p) - Managed(env, s, chain) then Some(publisher) else Lookup(s.subscriptions, (c, a))
  {
    hide StrictlySorted, AddNew, SortTexts, CheckCellarIds, Subscribe;
    var before, news := Cellars(env, s, chain), Addresses(env, p.ids);
    var after := AddNew(before, news);
    assert Distinct(before) by { if chain in s.cellars { CanonicalTexts(env, s.cellars[chain]); } }
    AddNewAdds(before, news);
    SubscribeExactly(s.subscriptions, chain, before, news, publisher);
    DistinctTexts(env, after);
    SortTextsSorts(Texts(env, after));
    SortedAddresses(env, after, SortTexts(Texts(env, after)));
  }

  /** A non-zero chain id, and well-formed ids only. */
  predicate WellFormed(env: Env, p: CellarIdSet) { p.chainId != 0 && forall id :: id in p.ids ==> env.isHex(id) }

  /** What each error of the two proposals says. */
  predicate CellarsCause(env: Env, s: State, chain: uint64, p: CellarIdSet, e: CorkError) {
    match e
    case ChainNotFound => chain !in s.configs
    case ChainIdMustBeNonZero => p.chainId == 0
    case InvalidEvmAddress => exists id :: id in p.ids && !env.isHex(id)
    case _ => false
  }

  /** Exactly when the two proposals are accepted, and why not otherwise. */
  lemma CellarsAccepted(env: Env, s: State, chain: uint64, p: CellarIdSet, publisher: string, publisherFound: bool)
    ensures var add, remove := AddManagedCellars(env, s, chain, p, publisher, publisherFound), RemoveManagedCellars(env, s, chain, p);
            && (add.Ok? <==> chain in s.configs && publisherFound && WellFormed(env, p))
            && (add.Fail? ==> (add.error.PublisherNotFound? && !publisherFound) || CellarsCause(env, s, chain, p, add.error))
            && (remove.Ok? <==> chain in s.configs && WellFormed(env, p))
            && (remove.Fail? ==> CellarsCause(env, s, chain, p, remove.error))
            && !add.Panic? && !remove.Panic?
  {
    hide Cellars, Addresses, AddNew, SortTexts, Subscribe, Unsubscribe, Without;
  }

  lemma {:induction false} SubscribeExactly(subscriptions: map<(uint64, Address), string>, chain: uint64, xs: seq<Address>, news: seq<Address>, publisher: string)
    requires Distinct(xs)
    ensures var after := Subscribe(subscriptions, chain, xs, news, publisher);
            forall c: uint64, a: Address :: Lookup(after, (c, a)) ==
              if c == chain && a in news && a !in xs then Some(publisher) else Lookup(subscriptions, (c, a))
  {
    if news != [] {
      var init, x := news[..|news| - 1], news[|news| - 1];
      SubscribeExactly(subscriptions, chain, xs, init, publisher);
      AddNewAdds(xs, init);
      assert news == init + [x];
    }
  }

  lemma {:induction false} UnsubscribeExactly(subscriptions: map<(uint64, Address), string>, chain: uint64, gone: seq<Address>)
    ensures var after := Unsubscribe(subscriptions, chain, gone);
            forall c: uint64, a: Address :: Lookup(after, (c, a)) == if c == chain && a in gone then None else Lookup(subscriptions, (c, a))
  {
    if gone != [] {
      var init, x := gone[..|gone| - 1], gone[|gone| - 1];
      UnsubscribeExactly(subscriptions, chain, init);
      assert gone == init + [x];
    }
  }

  lemma DistinctTexts(env: Env, xs: seq<Address>)
    requires Faithful(env) && Distinct(xs)
    ensures Distinct(Texts(env, xs))
  {
    forall i, j | 0 <= i < j < |xs| ensures env.text(xs[i]) != env.text(xs[j]) {
      assert env.address(env.text(xs[i])) != env.address(env.text(xs[j]));
    }
  }

  /** Texts of `xs` in another order denote the members of `xs`. */
  lemma SortedAddresses(env: Env, xs: seq<Address>, texts: seq<string>)
    requires Faithful(env) && forall t :: t in texts <==> t in Texts(env, xs)
    ensures forall t :: t in texts ==> env.text(env.address(t)) == t
    ensures forall a :: a in Addresses(env, texts) <==> a in xs
  {
    forall t | t in texts ensures env.text(env.address(t)) == t {
      var i :| 0 <= i < |xs| && Texts(env, xs)[i] == t;
      assert env.address(env.text(xs[i])) == xs[i];
    }
    forall a ensures a in Addresses(env, texts) <==> a in xs {
      if a in Addresses(env, texts) {
        var i :| 0 <= i < |texts| && Addresses(env, texts)[i] == a;
        assert texts[i] in texts;
        var j :| 0 <= j < |xs| && Texts(env, xs)[j] == texts[i];
        assert env.address(env.text(xs[j])) == xs[j];
      }
      if a in xs {
        var j :| 0 <= j < |xs| && xs[j] == a;
        assert Texts(env, xs)[j] in texts;
        var i :| 0 <= i < |texts| && texts[i] == Texts(env, xs)[j];
        assert env.address(env.text(xs[j])) == xs[j];
        assert Addresses(env, texts)[i] == a;
      }
    }
  }

  /** A removal manages exactly the others, and the list stays sorted without sorting it again; every
      listed cellar loses its default subscription. */
  lemma RemoveCellarsExactly(env: Env, s: State, chain: uint64, p: CellarIdSet)
    requires Faithful(env) && ConfigsKeyed(s) && RemoveManagedCellars(env, s, chain, p).Ok?
    requires chain in s.cellars ==> Canonical(env, s.cellars[chain])
    ensures var t := RemoveManagedCellars(env, s, chain, p).value;
            && t == s.(cellars := t.cellars, subscriptions := t.subscriptions)
            && chain in t.cellars && Canonical(env, t.cellars[chain])
            && Managed(env, t, chain) == Managed(env, s, chain) - Listed(env, p)
            && (forall c :: c in t.cellars && c != chain ==> c in s.cellars && t.cellars[c] == s.cellars[c])
            && forall c: uint64, a: Address :: Lookup(t.subscriptions, (c, a)) ==
                 if c == chain && a in Listed(env, p) then None else Lookup(s.subscriptions, (c, a))
  {
    hide Without, CheckCellarIds, TextBefore, Unsubscribe;
    var before, gone := Cellars(env, s, chain), Addresses(env, p.ids);
    assert StrictlySorted(Texts(env, before)) by { if chain in s.cellars { CanonicalTexts(env, s.cellars[chain]); } }
    WithoutRemoves(env, before, gone);
    UnsubscribeExactly(s.subscriptions, chain, gone);
    SortedAddresses(env, Without(before, gone), Texts(env, Without(before, gone)));
  }

  // ----- whole runs -----

  /** Every stored list is canonical. */
  ghost predicate AllCanonical(env: Env, cellars: map<nat, seq<string>>) {
    forall c :: c in cellars ==> Canonical(env, cellars[c])
  }

  lemma RelaysKeepCellars(env: Env, s: State, chain: uint64, target: string, funded: bool, sent: bool)
    ensures Commit(s, RelayCork(env, s, chain, target, funded, sent)).cellars == s.cellars
    ensures Commit(s, RelayProxyUpgrade(env, s, chain, funded, sent)).cellars == s.cellars
  {
    hide ValidateAxelarPacket, EncodeLogicCall, NextWinning;
    var out, up := PrepareRelay(env, s, chain, target, funded), PrepareUpgrade(env, s, chain, funded);
    if RelayCork(env, s, chain, target, funded, sent).Ok? {
      ValidationFrame(env, out.value.state, s.params.ibcChannel, out.value.packet);
    }
    if RelayProxyUpgrade(env, s, chain, funded, sent).Ok? {
      ValidationFrame(env, up.value.state, s.params.ibcChannel, up.value.packet);
    }
  }

  /** Only the two proposals change the lists. */
  lemma OthersKeepCellars(env: Env, s: State, step: Step)
    requires Inv(env, s) && !step.AddCellars? && !step.RemoveCellars?
    ensures Next(env, s, step).cellars == s.cellars
  {
    hide EndBlocker, ValidateAxelarPacket, RelayCork, RelayProxyUpgrade, Inv, Cellars, UpgradeFor;
    match step {
      case EndBlock(_, _) => EndStep(env, s, step);
      case Relay(chain, target, funded, sent) => RelaysKeepCellars(env, s, chain, target, funded, sent);
      case RelayUpgrade(chain, funded, sent) => RelaysKeepCellars(env, s, chain, "", funded, sent);
      case SendPacket(channel, packet) => if ValidateAxelarPacket(env, s, channel, packet).Ok? { ValidationFrame(env, s, channel, packet); }
      case _ =>
    }
  }

  lemma StepKeepsCanonical(env: Env, s: State, step: Step)
    requires Faithful(env) && Inv(env, s) && AllCanonical(env, s.cellars)
    ensures AllCanonical(env, Next(env, s, step).cellars)
  {
    hide EndBlocker, ValidateAxelarPacket, RelayCork, RelayProxyUpgrade, Inv, AddManagedCellars, RemoveManagedCellars, Canonical, Faithful,
         ScheduleCork, ProposeUpgrade, CancelUpgrade, Managed, Listed, Lookup;
    InvParts(env, s);
    match step {
      case AddCellars(chain, ids, publisher, found) =>
        if AddManagedCellars(env, s, chain, ids, publisher, found).Ok? { AddCellarsExactly(env, s, chain, ids, publisher, found); }
      case RemoveCellars(chain, ids) =>
        if RemoveManagedCellars(env, s, chain, ids).Ok? { RemoveCellarsExactly(env, s, chain, ids); }
      case _ => OthersKeepCellars(env, s, step);
    }
  }

  /** In every state of a run from empty lists, each stored list is strictly sorted and canonical. */
  lemma {:induction false} RunKeepsCanonical(env: Env, s: State, steps: seq<Step>, n: nat)
    requires Faithful(env) && Inv(env, s) && s.cellars == map[] && n <= |steps|
    ensures AllCanonical(env, After(env, s, steps, n).cellars)
  {
    hide Next, Inv, Faithful, Canonical;
    if n > 0 {
      RunKeepsCanonical(env, s, steps, n - 1);
      RunKeepsInv(env, s, steps, n - 1);
      StepKeepsCanonical(env, After(env, s, steps, n - 1), steps[n - 1]);
    }
  }
}
