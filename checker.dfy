/** The state of the balance checker and its `checkBalances` handler
    (src/App.js, lines 7-43).

    The component keeps the text of the input box, the list of results and
    the in-progress flag. React's state updates are modelled as plain
    assignments done in order. The ghost `trace` records every event of
    every run so far; `Valid` says that `results` and `isChecking` are what
    those events have made of them.
 */
module Checker {
  import opened Addresses
  import opened Run

  class BalanceChecker {
    /** The text of the input box. */
    var addresses: string
    /** The result list shown under the input box. */
    var results: seq<BalanceResult>
    /** True while a run is going on; it disables the box and the button. */
    var isChecking: bool
    /** Everything the runs so far have done. */
    ghost var trace: seq<Event>

    ghost predicate Valid()
      reads this
    {
      results == Shown(trace) && isChecking == Checking(trace)
    }

    /** The initial state of lines 7-9. */
    constructor ()
      ensures Valid()
      ensures addresses == [] && results == [] && !isChecking && trace == []
    {
      addresses := [];
      results := [];
      isChecking := false;
      trace := [];
    }

    /** Typing into the box (line 52). The box is disabled during a run
        (line 54), so this happens only between runs. */
    method Edit(text: string)
      requires Valid() && !isChecking
      modifies this`addresses
      ensures Valid() && !isChecking
      ensures addresses == text
    {
      addresses := text;
    }

    /** One pass of the loop body (lines 19-40): wait, request the
        address's portfolio, and append the record its reply settles to
        (`Settle`, the `try` from line 32 on and its `catch`). */
    method Visit(addressList: seq<string>, i: nat, net: Network)
      requires i < |addressList|
      modifies this`results, this`trace
      ensures results == old(results) + [Settle(addressList[i], net(i, RequestUrl(addressList[i])))]
      ensures trace == old(trace) + Pass(RequestUrl(addressList[i]), Settle(addressList[i], net(i, RequestUrl(addressList[i]))))
    {
      var address := addressList[i];
      trace := trace + [Wait(DelayMs)];
      var url := RequestUrl(address);
      trace := trace + [Fetch(url)];
      var record := Settle(address, net(i, url));
      results := results + [record];
      trace := trace + [Append(record)];
      assert trace == old(trace) + [Wait(DelayMs), Fetch(url), Append(record)];
    }

    /** The click handler (lines 13-43); the button is disabled during a run
        (line 59), so a run never starts inside another. `net` stands for
        the network: how the k-th request of this run fares.

        The list ends with one record per parsed address, in order, whatever
        it held before; the events are those of one run, so during the run
        the flag stays set, one pause precedes each request, and the list
        only grows (see `RunKeepsChecking`, `WaitBeforeEachFetch` and
        `RunOnlyAppends`, which hold for every run). */
    method CheckBalances(net: Network)
      requires Valid() && !isChecking
      modifies this`results, this`isChecking, this`trace
      ensures Valid() && !isChecking
      ensures results == Expected(ParseAddresses(addresses), net)
      ensures trace == old(trace) + RunEvents(ParseAddresses(addresses), net)
    {
      isChecking := true;
      trace := trace + [Start];
      var text := addresses;
      var addressList := ParseAddresses(text);
      results := [];
      trace := trace + [Reset];
      ghost var head := trace;

      var i := 0;
      while i < |addressList|
        invariant 0 <= i <= |addressList|
        invariant isChecking && addresses == text
        invariant results == Expected(addressList, net)[..i]
        invariant trace == head + Passes(Urls(addressList), Expected(addressList, net), i)
      {
        Visit(addressList, i, net);
        LoopStep(head, addressList, net, i);
        i := i + 1;
      }

      isChecking := false;
      trace := trace + [Finish];
      assert results == Expected(addressList, net) by {
        assert Expected(addressList, net)[..i] == Expected(addressList, net);
      }
      ghost var urls, records := Urls(addressList), Expected(addressList, net);
      RunEventsSplit(old(trace), Passes(urls, records, |addressList|));
      RunShows(old(trace), urls, records);
      RunKeepsChecking(old(trace), urls, records);
    }
  }
}
