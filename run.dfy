/** One run of `checkBalances` (src/App.js, lines 13-43), stated as values.

    A run sets the in-progress flag, parses the input, empties the result
    list and then, for each address in turn, waits one second, requests the
    address's token portfolio and appends exactly one record: the MON
    balance on success, a fixed error text when anything in that iteration
    fails. After the last address the flag is cleared.

    The network is a parameter: `Network` says how the k-th request of the
    run, sent to a given URL, fares. What a run does is recorded as a list
    of events; the checker's `results` and `isChecking` are functions of the
    events so far (`Shown`, `Checking`), and the lemmas below state what a
    run's events do to them.
 */
module Run {
  import opened Addresses
  import opened Tokens

  /** The URL every request starts with; the address is appended verbatim. */
  const Endpoint: string := "https://monad-api.blockvision.org/testnet/api/account/tokenPortfolio?address="

  /** The balance text of an error record. */
  const ErrorText: string := "Error fetching balance"

  /** The pause before each request, in milliseconds. */
  const DelayMs: nat := 1000

  datatype Status = Success | Error

  /** One line of the result list. */
  datatype BalanceResult = BalanceResult(address: string, balance: string, status: Status)

  /** How one request fared. `Failure` stands for everything the `catch`
      receives before the lookup: a rejected `fetch`, a body that is not
      JSON, and a body without a `result.data` list. */
  datatype Reply = Failure | Payload(tokens: seq<Entry>)

  /** The reply to the k-th request of a run, sent to the given URL. */
  type Network = (nat, string) -> Reply

  /** What a run does, in order: set the flag, empty the list, wait,
      request, append a record, clear the flag. */
  datatype Event = Start | Reset | Wait(ms: nat) | Fetch(url: string) | Append(record: BalanceResult) | Finish

  /** Recovers the address from a request URL; `None` for a URL that is not
      a request of this checker. */
  function AddressOf(url: string): Option<string>
  {
    if |Endpoint| <= |url| && url[..|Endpoint|] == Endpoint then Some(url[|Endpoint|..]) else None
  }

  /** The template literal of line 25: the endpoint with the address
      appended unchanged, so the address can be read back from the URL and
      two addresses give the same URL only when they are equal. */
  function RequestUrl(address: string): (url: string)
    ensures AddressOf(url) == Some(address)
  {
    var url := Endpoint + address;
    assert url[..|Endpoint|] == Endpoint;
    url
  }

  function ErrorRecord(address: string): BalanceResult
  {
    BalanceResult(address, ErrorText, Error)
  }

  /** The `try`/`catch` of one iteration, once the reply is in. */
  function Settle(address: string, reply: Reply): (r: BalanceResult)
    ensures r.address == address
  {
    match reply
    case Failure => ErrorRecord(address)
    case Payload(tokens) =>
      match MonBalance(tokens)
      case None => ErrorRecord(address)
      case Some(balance) => BalanceResult(address, balance, Success)
  }

  /** What one iteration records for an address: an error record when the
      request fails or the lookup throws; otherwise a success record with
      the balance of the first MON token, or `'N/A'` when there is none. */
  lemma SettleMeaning(address: string, reply: Reply)
    ensures reply.Failure? ==> Settle(address, reply) == ErrorRecord(address)
    ensures reply.Payload? ==> forall i: nat :: FirstMonAt(reply.tokens, i) ==>
      Settle(address, reply) == BalanceResult(address, reply.tokens[i].balance, Success)
    ensures reply.Payload? && NoMonBefore(reply.tokens, |reply.tokens|) ==>
      Settle(address, reply) == BalanceResult(address, NotAvailable, Success)
    ensures reply.Payload? ==> ((exists i: nat :: ThrowsAt(reply.tokens, i)) <==> Settle(address, reply) == ErrorRecord(address))
  {
  }

  /** The result list a run over `addrs` ends with: one record per address,
      in the order of the addresses. */
  function Expected(addrs: seq<string>, net: Network): (rs: seq<BalanceResult>)
    ensures |rs| == |addrs|
    ensures forall i :: 0 <= i < |rs| ==> rs[i].address == addrs[i]
  {
    var rs := seq(|addrs|, i requires 0 <= i < |addrs| => Settle(addrs[i], net(i, RequestUrl(addrs[i]))));
    assert forall i :: 0 <= i < |rs| ==> rs[i] == Settle(addrs[i], net(i, RequestUrl(addrs[i])));
    rs
  }

  /** The events of one iteration of the loop: wait, request `url`,
      append `record`. */
  function Pass(url: string, record: BalanceResult): seq<Event>
  {
    [Wait(DelayMs), Fetch(url), Append(record)]
  }

  /** The events of the first n iterations, given the URL each iteration
      requests and the record it appends: three per iteration, none of them
      touching the flag or emptying the list. */
  function Passes(urls: seq<string>, records: seq<BalanceResult>, n: nat): (es: seq<Event>)
    requires n <= |urls| && n <= |records|
    ensures |es| == 3 * n
    ensures forall p :: 0 <= p < |es| ==> es[p].Wait? || es[p].Fetch? || es[p].Append?
    ensures n > 0 ==> es[|es| - 1].Append?
  {
    if n == 0 then [] else Passes(urls, records, n - 1) + Pass(urls[n - 1], records[n - 1])
  }

  /** All events of one run whose iterations request `urls` and append
      `records`, one of each per iteration. */
  function RunOf(urls: seq<string>, records: seq<BalanceResult>): (es: seq<Event>)
    requires |urls| == |records|
    ensures |es| == 3 * |urls| + 3
    ensures es[0] == Start && es[1] == Reset && es[|es| - 1] == Finish
  {
    [Start, Reset] + Passes(urls, records, |urls|) + [Finish]
  }

  /** All events of one run over `addrs`. */
  function RunEvents(addrs: seq<string>, net: Network): (es: seq<Event>)
    ensures |es| == 3 * |addrs| + 3
  {
    RunOf(Urls(addrs), Expected(addrs, net))
  }

  /** The value of `isChecking` after the events. */
  function Checking(trace: seq<Event>): bool
  {
    if trace == [] then false
    else match trace[|trace| - 1]
      case Start => true
      case Finish => false
      case _ => Checking(trace[..|trace| - 1])
  }

  /** The value of `results` after the events. */
  function Shown(trace: seq<Event>): seq<BalanceResult>
  {
    if trace == [] then []
    else match trace[|trace| - 1]
      case Reset => []
      case Append(record) => Shown(trace[..|trace| - 1]) + [record]
      case _ => Shown(trace[..|trace| - 1])
  }

  /** The URLs requested by the events, in order. */
  function Fetched(trace: seq<Event>): seq<string>
  {
    if trace == [] then []
    else match trace[|trace| - 1]
      case Fetch(url) => Fetched(trace[..|trace| - 1]) + [url]
      case _ => Fetched(trace[..|trace| - 1])
  }

  /** The request URLs of the addresses, in order. */
  function Urls(addrs: seq<string>): (urls: seq<string>)
    ensures |urls| == |addrs|
    ensures forall i :: 0 <= i < |urls| ==> AddressOf(urls[i]) == Some(addrs[i])
  {
    seq(|addrs|, i requires 0 <= i < |addrs| => RequestUrl(addrs[i]))
  }

  /** Adding one event at the end: what the folds see last. */
  lemma Pushed(t: seq<Event>, e: Event)
    ensures (t + [e])[..|t|] == t && (t + [e])[|t|] == e
  {
  }

  /** One more event changes the list only by emptying it or appending. */
  lemma ShownPush(t: seq<Event>, e: Event)
    ensures Shown(t + [e]) == if e.Reset? then [] else if e.Append? then Shown(t) + [e.record] else Shown(t)
  {
    Pushed(t, e);
  }

  lemma FetchedPush(t: seq<Event>, e: Event)
    ensures Fetched(t + [e]) == if e.Fetch? then Fetched(t) + [e.url] else Fetched(t)
  {
    Pushed(t, e);
  }

  /** One iteration appends its record to the list. */
  lemma ShownPass(t: seq<Event>, url: string, record: BalanceResult)
    ensures Shown(t + Pass(url, record)) == Shown(t) + [record]
  {
    assert t + Pass(url, record) == ((t + [Wait(DelayMs)]) + [Fetch(url)]) + [Append(record)];
    ShownPush(t, Wait(DelayMs));
    ShownPush(t + [Wait(DelayMs)], Fetch(url));
    ShownPush((t + [Wait(DelayMs)]) + [Fetch(url)], Append(record));
  }

  /** One iteration makes one request, to its URL. */
  lemma FetchedPass(t: seq<Event>, url: string, record: BalanceResult)
    ensures Fetched(t + Pass(url, record)) == Fetched(t) + [url]
  {
    assert t + Pass(url, record) == ((t + [Wait(DelayMs)]) + [Fetch(url)]) + [Append(record)];
    FetchedPush(t, Wait(DelayMs));
    FetchedPush(t + [Wait(DelayMs)], Fetch(url));
    FetchedPush((t + [Wait(DelayMs)]) + [Fetch(url)], Append(record));
  }

  /** The i-th iteration over `addrs` requests the i-th address's URL and
      appends the i-th expected record. */
  lemma LoopStep(head: seq<Event>, addrs: seq<string>, net: Network, i: nat)
    requires i < |addrs|
    ensures head + Passes(Urls(addrs), Expected(addrs, net), i + 1) ==
      head + Passes(Urls(addrs), Expected(addrs, net), i) + Pass(RequestUrl(addrs[i]), Settle(addrs[i], net(i, RequestUrl(addrs[i]))))
    ensures Expected(addrs, net)[..i + 1] == Expected(addrs, net)[..i] + [Settle(addrs[i], net(i, RequestUrl(addrs[i])))]
  {
    var rs := Expected(addrs, net);
    assert rs[..i + 1] == rs[..i] + [rs[i]];
  }

  /** The events of a run, as the handler adds them. */
  lemma RunEventsSplit(prior: seq<Event>, loop: seq<Event>)
    ensures ((prior + [Start]) + [Reset]) + loop + [Finish] == prior + ([Start, Reset] + loop + [Finish])
  {
    assert (prior + [Start]) + [Reset] == prior + [Start, Reset];
  }

  /** During the loop, the list holds the records of the iterations done so
      far, whatever it held before the run. */
  lemma {:induction false} ShownDuringLoop(prior: seq<Event>, urls: seq<string>, records: seq<BalanceResult>, n: nat)
    requires n <= |urls| && n <= |records|
    ensures Shown(prior + [Start, Reset] + Passes(urls, records, n)) == records[..n]
  {
    var head := prior + [Start, Reset];
    if n == 0 {
      assert head + [] == (prior + [Start]) + [Reset];
      ShownPush(prior + [Start], Reset);
    } else {
      ShownDuringLoop(prior, urls, records, n - 1);
      var t := head + Passes(urls, records, n - 1);
      assert head + Passes(urls, records, n) == t + Pass(urls[n - 1], records[n - 1]);
      ShownPass(t, urls[n - 1], records[n - 1]);
      assert records[..n] == records[..n - 1] + [records[n - 1]];
    }
  }

  /** During the loop, the requests made are those of the iterations done
      so far, in order. */
  lemma {:induction false} FetchedDuringLoop(prior: seq<Event>, urls: seq<string>, records: seq<BalanceResult>, n: nat)
    requires n <= |urls| && n <= |records|
    ensures Fetched(prior + [Start, Reset] + Passes(urls, records, n)) == Fetched(prior) + urls[..n]
  {
    var head := prior + [Start, Reset];
    if n == 0 {
      assert head + [] == (prior + [Start]) + [Reset];
      FetchedPush(prior + [Start], Reset);
      FetchedPush(prior, Start);
    } else {
      FetchedDuringLoop(prior, urls, records, n - 1);
      var t := head + Passes(urls, records, n - 1);
      assert head + Passes(urls, records, n) == t + Pass(urls[n - 1], records[n - 1]);
      FetchedPass(t, urls[n - 1], records[n - 1]);
      assert urls[..n] == urls[..n - 1] + [urls[n - 1]];
    }
  }

  /** A run ends with exactly its records, in iteration order, and nothing
      from before the run survives in the list. */
  lemma RunShows(prior: seq<Event>, urls: seq<string>, records: seq<BalanceResult>)
    requires |urls| == |records|
    ensures Shown(prior + RunOf(urls, records)) == records
  {
    var body := prior + [Start, Reset] + Passes(urls, records, |urls|);
    ShownDuringLoop(prior, urls, records, |urls|);
    assert prior + RunOf(urls, records) == body + [Finish];
    Pushed(body, Finish);
    assert records[..|urls|] == records;
  }

  /** A run makes exactly its requests, once each and in iteration order. */
  lemma RunFetches(prior: seq<Event>, urls: seq<string>, records: seq<BalanceResult>)
    requires |urls| == |records|
    ensures Fetched(prior + RunOf(urls, records)) == Fetched(prior) + urls
  {
    var body := prior + [Start, Reset] + Passes(urls, records, |urls|);
    FetchedDuringLoop(prior, urls, records, |urls|);
    assert prior + RunOf(urls, records) == body + [Finish];
    Pushed(body, Finish);
    assert urls[..|urls|] == urls;
  }

  /** A run over `addrs` ends with the expected record of each address, in
      address order, and requests each address once, in order, at the
      endpoint with the address appended. */
  lemma RunOverAddresses(prior: seq<Event>, addrs: seq<string>, net: Network)
    ensures Shown(prior + RunEvents(addrs, net)) == Expected(addrs, net)
    ensures Fetched(prior + RunEvents(addrs, net)) == Fetched(prior) + Urls(addrs)
  {
    RunShows(prior, Urls(addrs), Expected(addrs, net));
    RunFetches(prior, Urls(addrs), Expected(addrs, net));
  }

  /** Events that neither set nor clear the flag leave it as it was. */
  lemma {:induction false} CheckingKept(t: seq<Event>, s: seq<Event>)
    requires forall p :: 0 <= p < |s| ==> !s[p].Start? && !s[p].Finish?
    ensures Checking(t + s) == Checking(t)
  {
    if s != [] {
      var last := s[|s| - 1];
      assert (t + s)[..|t + s| - 1] == t + s[..|s| - 1];
      assert (t + s)[|t + s| - 1] == last;
      CheckingKept(t, s[..|s| - 1]);
    } else {
      assert t + s == t;
    }
  }

  /** `isChecking` is true from the first event of a run until its last
      one, and false once the run is over: Idle, Running, Idle, with no
      way out of the loop in between. */
  lemma RunKeepsChecking(prior: seq<Event>, urls: seq<string>, records: seq<BalanceResult>)
    requires |urls| == |records|
    ensures forall k :: 1 <= k < |RunOf(urls, records)| ==> Checking(prior + RunOf(urls, records)[..k])
    ensures !Checking(prior + RunOf(urls, records))
  {
    var run := RunOf(urls, records);
    var started := prior + [Start];
    assert started[..|started| - 1] == prior;
    forall k | 1 <= k < |run|
      ensures Checking(prior + run[..k])
    {
      var rest := run[1..k];
      assert prior + run[..k] == started + rest;
      forall p | 0 <= p < |rest|
        ensures !rest[p].Start? && !rest[p].Finish?
      {
        assert rest[p] == run[p + 1];
        if p + 1 >= 2 {
          assert run[p + 1] == Passes(urls, records, |urls|)[p - 1];
        }
      }
      CheckingKept(started, rest);
    }
    assert (prior + run)[|prior + run| - 1] == Finish;
  }

  /** Every Fetch comes right after a Wait and every Wait right before a
      Fetch, and every Wait lasts one second. */
  predicate Paced(es: seq<Event>)
  {
    && (es != [] ==> !es[0].Fetch? && !es[|es| - 1].Wait?)
    && (forall p :: 1 <= p < |es| ==> (es[p].Fetch? <==> es[p - 1].Wait?))
    && (forall p :: 0 <= p < |es| ==> es[p].Wait? ==> es[p] == Wait(DelayMs))
  }

  lemma PacedConcat(a: seq<Event>, b: seq<Event>)
    requires Paced(a) && Paced(b)
    ensures Paced(a + b)
  {
    var ab := a + b;
    if ab != [] {
      if b != [] {
        assert ab[|ab| - 1] == b[|b| - 1];
      } else {
        assert ab == a;
      }
      if a != [] {
        assert ab[0] == a[0];
      } else {
        assert ab == b;
      }
    }
    forall p | 1 <= p < |ab|
      ensures ab[p].Fetch? <==> ab[p - 1].Wait?
    {
      if p < |a| {
        assert ab[p] == a[p] && ab[p - 1] == a[p - 1];
      } else if p == |a| {
        assert ab[p] == b[0] && ab[p - 1] == a[|a| - 1];
      } else {
        assert ab[p] == b[p - |a|] && ab[p - 1] == b[p - |a| - 1];
      }
    }
    forall p | 0 <= p < |ab| && ab[p].Wait?
      ensures ab[p] == Wait(DelayMs)
    {
      if p < |a| { assert ab[p] == a[p]; } else { assert ab[p] == b[p - |a|]; }
    }
  }

  /** Inside the loop, one one-second pause comes before each request. */
  lemma {:induction false} LoopIsPaced(urls: seq<string>, records: seq<BalanceResult>, n: nat)
    requires n <= |urls| && n <= |records|
    ensures Paced(Passes(urls, records, n))
  {
    if n > 0 {
      LoopIsPaced(urls, records, n - 1);
      var step := Pass(urls[n - 1], records[n - 1]);
      assert Paced(step) by {
        assert step[0] == Wait(DelayMs) && step[1].Fetch? && step[2].Append? && |step| == 3;
      }
      PacedConcat(Passes(urls, records, n - 1), step);
    }
  }

  /** In a whole run, every request is preceded immediately by a one-second
      pause, and every pause is followed immediately by a request. */
  lemma WaitBeforeEachFetch(urls: seq<string>, records: seq<BalanceResult>)
    requires |urls| == |records|
    ensures Paced(RunOf(urls, records))
  {
    var es := Passes(urls, records, |urls|);
    LoopIsPaced(urls, records, |urls|);
    assert Paced([Start, Reset]);
    assert Paced([Finish]);
    PacedConcat([Start, Reset], es);
    PacedConcat([Start, Reset] + es, [Finish]);
  }

  /** The list is emptied before the first record of a run, and after that
      every event of the run either leaves it as it is or appends one
      record at the end: nothing is removed, replaced or reordered. */
  lemma RunOnlyAppends(prior: seq<Event>, urls: seq<string>, records: seq<BalanceResult>)
    requires |urls| == |records|
    ensures Shown(prior + RunOf(urls, records)[..2]) == []
    ensures forall k :: 2 <= k < |RunOf(urls, records)| ==>
      var run := RunOf(urls, records);
      Shown(prior + run[..k + 1]) == Shown(prior + run[..k]) + (if run[k].Append? then [run[k].record] else [])
  {
    var run := RunOf(urls, records);
    var es := Passes(urls, records, |urls|);
    assert (prior + run[..2])[|prior + run[..2]| - 1] == Reset;
    forall k | 2 <= k < |run|
      ensures Shown(prior + run[..k + 1]) == Shown(prior + run[..k]) + (if run[k].Append? then [run[k].record] else [])
    {
      var t := prior + run[..k + 1];
      assert t[..|t| - 1] == prior + run[..k];
      assert t[|t| - 1] == run[k];
      if k < |run| - 1 {
        assert run[k] == es[k - 2];
      }
    }
  }

  /** A failed request costs its own address an error record and nothing
      more: the run goes on, and every other address gets the record it
      would have got had that request succeeded. */
  lemma FailureIsAbsorbed(addrs: seq<string>, net: Network, other: Network, i: nat)
    requires i < |addrs|
    requires net(i, RequestUrl(addrs[i])).Failure?
    requires forall j :: 0 <= j < |addrs| && j != i ==> net(j, RequestUrl(addrs[j])) == other(j, RequestUrl(addrs[j]))
    ensures Expected(addrs, net)[i] == ErrorRecord(addrs[i])
    ensures |Expected(addrs, net)| == |Expected(addrs, other)| == |addrs|
    ensures forall j :: 0 <= j < |addrs| && j != i ==> Expected(addrs, net)[j] == Expected(addrs, other)[j]
  {
  }

  lemma ExampleAddress(a: string)
    requires a == "0xAAA" || a == "0xBBB"
    ensures '\n' !in a && a != [] && Trim(a) == a
  {
    assert a[0] == '0' && a[4] == a[1 + 1 + 1] == a[1 + 1] && a[1] == 'x';
    assert forall k :: 0 <= k < |a| ==> a[k] != '\n';
    assert !IsSpace(a[0]) && !IsSpace(a[4]);
    TrimUnpadded(a);
  }

  /** The input of the two-address example parses to its two addresses;
      the trailing line feed adds nothing. */
  lemma TwoAddressInput(text: string)
    requires text == "0xAAA\n0xBBB\n"
    ensures ParseAddresses(text) == ["0xAAA", "0xBBB"]
  {
    var addrs := ["0xAAA", "0xBBB"];
    assert JoinLines(addrs) == "0xAAA\n0xBBB";
    assert text == JoinLines(addrs) + "\n" + "";
    forall i | 0 <= i < |addrs|
      ensures '\n' !in addrs[i] && addrs[i] != [] && Trim(addrs[i]) == addrs[i]
    {
      ExampleAddress(addrs[i]);
    }
    ParseJoin(addrs, addrs);
    ParseOneLine("");
    ParseConcat(JoinLines(addrs), "");
  }

  /** The replies of the two-address example, record by record. */
  lemma TwoAddressRecords(addrs: seq<string>, net: Network)
    requires addrs == ["0xAAA", "0xBBB"]
    requires net(0, RequestUrl("0xAAA")) == Payload([Token("MON", "1.5")])
    requires net(1, RequestUrl("0xBBB")) == Failure
    ensures Expected(addrs, net) == [BalanceResult("0xAAA", "1.5", Success), ErrorRecord("0xBBB")]
  {
    var rs := Expected(addrs, net);
    assert rs[0] == BalanceResult("0xAAA", "1.5", Success) by {
      SettleMeaning("0xAAA", Payload([Token("MON", "1.5")]));
      assert FirstMonAt([Token("MON", "1.5")], 0);
    }
    assert rs[1] == ErrorRecord("0xBBB");
    assert |rs| == 2;
  }

  /** The run of the two-address example: a MON balance of 1.5 for the
      first address and a network error for the second give one success
      record and one error record, in input order. */
  lemma TwoAddressExample(text: string, net: Network)
    requires text == "0xAAA\n0xBBB\n"
    requires net(0, RequestUrl("0xAAA")) == Payload([Token("MON", "1.5")])
    requires net(1, RequestUrl("0xBBB")) == Failure
    ensures Expected(ParseAddresses(text), net) ==
      [BalanceResult("0xAAA", "1.5", Success), BalanceResult("0xBBB", ErrorText, Error)]
  {
    TwoAddressInput(text);
    TwoAddressRecords(ParseAddresses(text), net);
  }
}
