/** One run of price-tracker.py (main): fetch every tracked URL in order, keep the successful
    fetches, flag each one whose price fell below its last recorded price, append all of them
    to the history file, and send one alert email when anything dropped. The browser is
    abstracted: the run receives, per URL, how get_product_info ended (an observation, None,
    or an escaping navigation error), and a navigation error aborts the run. */
module Tracker {
  import opened Wrappers
  import opened Observations
  import opened History

  /** One alert line: the product's name, its new price, and how much it fell. */
  datatype Drop = Drop(name: string, price: real, amount: real)

  /** The successful fetches, in fetch order (all_product_info). */
  function Successes(fetched: seq<Option<Observation>>): (obs: seq<Observation>)
    ensures |obs| <= |fetched|
  {
    if fetched == [] then []
    else
      var init := Successes(fetched[..|fetched| - 1]);
      match fetched[|fetched| - 1]
      case None => init
      case Some(o) => init + [o]
  }

  /** Collecting successes commutes with splitting the fetch list. */
  lemma {:induction false} SuccessesAppend(a: seq<Option<Observation>>, b: seq<Option<Observation>>)
    ensures Successes(a + b) == Successes(a) + Successes(b)
    decreases |b|
  {
    if b == [] {
      assert a + b == a;
    } else {
      var b' := b[..|b| - 1];
      assert (a + b)[..|a + b| - 1] == a + b';
      SuccessesAppend(a, b');
    }
  }

  /** Failed fetches contribute nothing; a successful one contributes its observation. */
  lemma SuccessesSingle(r: Option<Observation>)
    ensures Successes([r]) == if r.Some? then [r.value] else []
  {
    assert [r][..0] == [];
  }

  /** One more fetch adds its observation when it succeeded, and nothing otherwise. */
  lemma SuccessesSnoc(fetched: seq<Option<Observation>>, r: Option<Observation>)
    ensures Successes(fetched + [r]) == if r.Some? then Successes(fetched) + [r.value] else Successes(fetched)
  {
    assert (fetched + [r])[..|fetched|] == fetched;
  }

  /** An observation is kept exactly when some fetch returned it. */
  lemma {:induction false} SuccessesMembers(fetched: seq<Option<Observation>>)
    ensures forall o :: o in Successes(fetched) <==> Some(o) in fetched
  {
    if fetched != [] {
      var init := fetched[..|fetched| - 1];
      SuccessesMembers(init);
      assert fetched == init + [fetched[|fetched| - 1]];
    }
  }

  /** The drop check of one observation against the last prices (price_drops entry). */
  function DropFor(o: Observation, last: map<Url, real>): (d: Option<Drop>)
    ensures d.Some? <==> o.url in last && o.price < last[o.url]
    ensures d.Some? ==> d.value.name == o.name && d.value.price == o.price
    ensures d.Some? ==> d.value.amount > 0.0 && d.value.price + d.value.amount == last[o.url]
  {
    if o.url in last && o.price < last[o.url] then Some(Drop(o.name, o.price, last[o.url] - o.price))
    else None
  }

  /** The check of line 110 as written, with the loop's URL, is DropFor of an observation
      fetched from that URL. */
  lemma DropForUrl(o: Observation, url: Url, last: map<Url, real>)
    requires o.url == url
    ensures DropFor(o, last)
         == if url in last && o.price < last[url] then Some(Drop(o.name, o.price, last[url] - o.price)) else None
  {
  }

  /** The drop entries of a run, in fetch order. */
  function DetectDrops(obs: seq<Observation>, last: map<Url, real>): (drops: seq<Drop>)
    ensures |drops| <= |obs|
    ensures forall d :: d in drops ==> d.amount > 0.0
  {
    if obs == [] then []
    else
      var init := DetectDrops(obs[..|obs| - 1], last);
      match DropFor(obs[|obs| - 1], last)
      case None => init
      case Some(d) => init + [d]
  }

  /** Drop entries of consecutive observation lists come one list after the other: one entry
      per dropping observation, in fetch order. */
  lemma {:induction false} DetectDropsAppend(a: seq<Observation>, b: seq<Observation>, last: map<Url, real>)
    ensures DetectDrops(a + b, last) == DetectDrops(a, last) + DetectDrops(b, last)
    decreases |b|
  {
    if b == [] {
      assert a + b == a;
    } else {
      var b' := b[..|b| - 1];
      assert (a + b)[..|a + b| - 1] == a + b';
      DetectDropsAppend(a, b', last);
    }
  }

  /** One observation gives its own drop entry when it dropped, and nothing otherwise. */
  lemma DetectDropsSingle(o: Observation, last: map<Url, real>)
    ensures DetectDrops([o], last) == if DropFor(o, last).Some? then [DropFor(o, last).value] else []
  {
    assert [o][..0] == [];
  }

  /** One more observation adds its drop entry when it dropped, and nothing otherwise. */
  lemma DetectDropsSnoc(obs: seq<Observation>, o: Observation, last: map<Url, real>)
    ensures DetectDrops(obs + [o], last)
         == if DropFor(o, last).Some? then DetectDrops(obs, last) + [DropFor(o, last).value] else DetectDrops(obs, last)
  {
    assert (obs + [o])[..|obs|] == obs;
  }

  /** A drop entry exists for an observation if and only if its URL has a last price and the
      new price is strictly lower; nothing else produces one. */
  lemma {:induction false} DetectDropsMembers(obs: seq<Observation>, last: map<Url, real>)
    ensures forall d :: d in DetectDrops(obs, last) <==> exists o :: o in obs && DropFor(o, last) == Some(d)
  {
    if obs != [] {
      var init := obs[..|obs| - 1];
      DetectDropsMembers(init, last);
      assert obs == init + [obs[|obs| - 1]];
    }
  }

  /** No alert is due exactly when every observation is unseen, unchanged or dearer. */
  lemma {:induction false} DetectDropsEmpty(obs: seq<Observation>, last: map<Url, real>)
    ensures DetectDrops(obs, last) == [] <==> forall o :: o in obs ==> o.url !in last || o.price >= last[o.url]
  {
    if obs != [] {
      var init := obs[..|obs| - 1];
      DetectDropsEmpty(init, last);
      assert obs == init + [obs[|obs| - 1]];
    }
  }

  /** The mail settings: EMAIL serves as both sender and recipient, EMAIL_PASSWORD as the
      credential; None is an unset variable. */
  datatype Config = Config(email: Option<string>, password: Option<string>)

  /** Python truthiness of an environment value: unset or empty counts as missing. */
  predicate IsSet(v: Option<string>)
  {
    v.Some? && v.value != ""
  }

  const AlertSubject: string := "Disco.com.ar Price Drop Alert"

  /** What the end of a run does about the drops found. */
  datatype Notice =
    | NoDropsReported                               // "No price drops detected."
    | EmailSkipped(drops: seq<Drop>)                // configuration incomplete
    | EmailAttempted(subject: string, drops: seq<Drop>)  // one message to the relay

  /** The notification step of main with send_email's configuration guard. */
  function Notify(cfg: Config, drops: seq<Drop>): (n: Notice)
    ensures n.NoDropsReported? <==> drops == []
    ensures n.EmailAttempted? <==> drops != [] && IsSet(cfg.email) && IsSet(cfg.password)
    ensures !n.NoDropsReported? ==> n.drops == drops
  {
    if drops == [] then NoDropsReported
    else if IsSet(cfg.email) && IsSet(cfg.password) then EmailAttempted(AlertSubject, drops)
    else EmailSkipped(drops)
  }

  /** No call of get_product_info raised: the loop ran over every URL. */
  predicate NoneEscaped(fetches: seq<Fetch>)
  {
    forall i :: 0 <= i < |fetches| ==> fetches[i].Returned?
  }

  /** Every observation returned for a URL is about that URL (price-tracker.py line 52). */
  predicate CarriesUrls(urls: seq<Url>, fetches: seq<Fetch>)
  {
    forall i :: 0 <= i < |urls| && i < |fetches| && fetches[i].Returned? && fetches[i].result.Some? ==>
      fetches[i].result.value.url == urls[i]
  }

  /** The values get_product_info returned, in URL order. */
  function Results(fetches: seq<Fetch>): (fetched: seq<Option<Observation>>)
    requires NoneEscaped(fetches)
    ensures |fetched| == |fetches|
    ensures forall i :: 0 <= i < |fetches| ==> fetched[i] == fetches[i].result
  {
    if fetches == [] then [] else Results(fetches[..|fetches| - 1]) + [fetches[|fetches| - 1].result]
  }

  /** Fetches made by get_product_info for the tracked URLs in order meet what the loop of
      main relies on: each result is about its URL, and the loop completes exactly when
      every navigation succeeded. */
  lemma GetProductInfoFetches(urls: seq<Url>, visits: seq<Visit>, timestamps: seq<string>, fetches: seq<Fetch>)
    requires |visits| == |urls| && |timestamps| == |urls| && |fetches| == |urls|
    requires forall i :: 0 <= i < |urls| ==> fetches[i] == GetProductInfo(urls[i], visits[i], timestamps[i])
    ensures CarriesUrls(urls, fetches)
    ensures NoneEscaped(fetches) <==> forall i :: 0 <= i < |visits| ==> visits[i].Loaded?
  {
  }

  /** The first loop of main: for each URL in order, take what get_product_info gave, keep a
      successful fetch and compare its price with the last recorded one. An error escaping
      get_product_info leaves the loop, and main with it, at once (completed is false). */
  method Collect(urls: seq<Url>, fetches: seq<Fetch>, last: map<Url, real>)
    returns (completed: bool, infos: seq<Observation>, drops: seq<Drop>)
    requires |fetches| == |urls| && CarriesUrls(urls, fetches)
    ensures completed <==> NoneEscaped(fetches)
    ensures completed ==> infos == Successes(Results(fetches))
    ensures completed ==> drops == DetectDrops(infos, last)
  {
    infos, drops := [], [];
    ghost var fetched: seq<Option<Observation>> := [];
    for i := 0 to |urls|
      invariant forall j :: 0 <= j < i ==> fetches[j].Returned?
      invariant |fetched| == i
      invariant forall j :: 0 <= j < i ==> fetched[j] == fetches[j].result
      invariant infos == Successes(fetched)
      invariant drops == DetectDrops(infos, last)
    {
      if fetches[i].Escaped? {
        return false, infos, drops;
      }
      var url := urls[i];
      var info := fetches[i].result;
      SuccessesSnoc(fetched, info);
      fetched := fetched + [info];
      if info.Some? {
        var o := info.value;
        DetectDropsSnoc(infos, o, last);
        DropForUrl(o, url, last);
        infos := infos + [o];
        if url in last && o.price < last[url] {
          drops := drops + [Drop(o.name, o.price, last[url] - o.price)];
        }
      }
    }
    assert fetched == Results(fetches);
    completed := true;
  }

  /** The second loop of main: write_to_csv for every collected observation, in order. */
  method Persist(store: Store, infos: seq<Observation>)
    requires store.Valid()
    modifies store
    ensures store.Valid()
    ensures store.rows == WriteAll(old(store.rows), infos)
    ensures store.Records() == old(store.Records()) + infos
    ensures store.present == (old(store.present) || infos != [])
  {
    ghost var rows0, present0 := store.rows, store.present;
    for i := 0 to |infos|
      invariant store.Valid()
      invariant store.rows == WriteAll(rows0, infos[..i])
      invariant store.present == (present0 || i > 0)
    {
      WriteAllSnoc(rows0, infos[..i], infos[i]);
      assert infos[..i + 1] == infos[..i] + [infos[i]];
      store.Append(infos[i]);
    }
    assert infos[..|infos|] == infos;
    BodyWriteAll(rows0, infos);
  }

  /** How a run ends: aborted by an error that escapes the fetch loop, or completed with
      the drops found and the notification decided. */
  datatype Outcome = Aborted | Completed(drops: seq<Drop>, notice: Notice)

  /** main: read the last prices for as many rows as there are tracked URLs, collect the
      fetches and drops, append every success to the file in order, then notify. A navigation
      error ends the run before anything is written or sent. */
  method Run(store: Store, urls: seq<Url>, fetches: seq<Fetch>, cfg: Config)
    returns (outcome: Outcome)
    requires store.Valid()
    requires |fetches| == |urls| && CarriesUrls(urls, fetches)
    modifies store
    ensures store.Valid()
    ensures !NoneEscaped(fetches) ==>
              outcome == Aborted && store.rows == old(store.rows) && store.present == old(store.present)
    ensures NoneEscaped(fetches) ==>
              var infos := Successes(Results(fetches));
              && outcome.Completed?
              && outcome.drops == DetectDrops(infos, old(store.ReadLastPrices(|urls|)))
              && store.rows == WriteAll(old(store.rows), infos)
              && store.Records() == old(store.Records()) + infos
              && store.present == (old(store.present) || infos != [])
              && outcome.notice == Notify(cfg, outcome.drops)
  {
    var last := store.ReadLastPrices(|urls|);
    var completed, infos, drops := Collect(urls, fetches, last);
    if !completed {
      return Aborted;
    }
    Persist(store, infos);
    outcome := Completed(drops, Notify(cfg, drops));
  }

  /** The end-to-end example: three URLs, the third fetch times out, the file last recorded
      55.00 and 80.00 for the first two; one drop of 5.00 is reported and two rows are added. */
  lemma EndToEndScenario(u1: Url, u2: Url, u3: Url, t: string)
    requires u1 != u2 && u1 != u3 && u2 != u3
    ensures var history := [Observation(u1, "P1", 55.0, t), Observation(u2, "P2", 80.0, t)];
            var fetched := [Some(Observation(u1, "P1", 50.0, t)), Some(Observation(u2, "P2", 80.0, t)), None];
            var drops := DetectDrops(Successes(fetched), LastPrices(Some(history), 3));
            && drops == [Drop("P1", 50.0, 5.0)]
            && Successes(fetched) == [Observation(u1, "P1", 50.0, t), Observation(u2, "P2", 80.0, t)]
  {
    var history := [Observation(u1, "P1", 55.0, t), Observation(u2, "P2", 80.0, t)];
    var fetched := [Some(Observation(u1, "P1", 50.0, t)), Some(Observation(u2, "P2", 80.0, t)), None];
    var last := LastPrices(Some(history), 3);
    assert last == map[u1 := 55.0, u2 := 80.0] by {
      assert TailSlice(history, 3) == history;
      assert history[..1] == [history[0]];
      assert PriceMap([history[0]]) == map[u1 := 55.0] by { assert [history[0]][..0] == []; }
    }
    var obs := [fetched[0].value, fetched[1].value];
    assert Successes(fetched) == obs by {
      assert fetched[..2] == [fetched[0], fetched[1]];
      assert [fetched[0], fetched[1]][..1] == [fetched[0]];
      assert Successes([fetched[0]]) == [fetched[0].value] by { assert [fetched[0]][..0] == []; }
      assert Successes([fetched[0], fetched[1]]) == obs;
    }
    assert DetectDrops(obs, last) == [Drop("P1", 50.0, 5.0)] by {
      assert obs[..1] == [obs[0]];
      assert obs[..1][..0] == [];
    }
  }
}
