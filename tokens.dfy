/** The token lookup of the balance checker (src/App.js, lines 33-34).

    The reply of the portfolio endpoint carries a list of token entries.
    The checker runs `find(token => token.symbol === 'MON')` over that list
    and shows the balance of the entry found, or `'N/A'` when there is none.
 */
module Tokens {

  datatype Option<T> = None | Some(value: T)

  /** One element of the reply's token list. `Hole` is an element that is
      `null` or `undefined`: reading `.symbol` on it throws a TypeError. */
  datatype Entry = Token(symbol: string, balance: string) | Hole

  /** The symbol searched for; the comparison is `===`, so it is exact and
      case-sensitive. */
  const Mon: string := "MON"

  /** Shown when the list holds no MON entry. */
  const NotAvailable: string := "N/A"

  /** What `find` does with the list: the position of the first MON entry,
      no such entry, or the position of the hole the callback threw on. */
  datatype Lookup = Found(at: nat) | Absent | Threw(at: nat)

  /** The first `n` entries are all tokens, none of them MON. */
  predicate NoMonBefore(tokens: seq<Entry>, n: nat)
    requires n <= |tokens|
  {
    forall j :: 0 <= j < n ==> tokens[j].Token? && tokens[j].symbol != Mon
  }

  /** `find` stops at position `i` and returns that entry. */
  predicate FirstMonAt(tokens: seq<Entry>, i: nat)
  {
    i < |tokens| && tokens[i].Token? && tokens[i].symbol == Mon && NoMonBefore(tokens, i)
  }

  /** `find` throws at position `i`. */
  predicate ThrowsAt(tokens: seq<Entry>, i: nat)
  {
    i < |tokens| && tokens[i].Hole? && NoMonBefore(tokens, i)
  }

  /** `Array.prototype.find` with the callback `token => token.symbol === 'MON'`:
      it visits the entries in order and stops at the first one for which the
      callback returns true or throws. */
  function FindMon(tokens: seq<Entry>): (r: Lookup)
    ensures r.Found? ==> FirstMonAt(tokens, r.at)
    ensures r.Threw? ==> ThrowsAt(tokens, r.at)
    ensures r.Absent? ==> NoMonBefore(tokens, |tokens|)
  {
    if tokens == [] then Absent
    else match tokens[0]
      case Hole => Threw(0)
      case Token(symbol, _) =>
        if symbol == Mon then Found(0)
        else match FindMon(tokens[1..])
          case Found(i) => Found(i + 1)
          case Threw(i) => Threw(i + 1)
          case Absent => Absent
  }

  /** Line 34 on the result of line 33: the balance of the first MON entry,
      `'N/A'` when there is none, and `None` when the lookup throws (the
      checker then records an error). */
  function MonBalance(tokens: seq<Entry>): (r: Option<string>)
    ensures forall i: nat :: FirstMonAt(tokens, i) ==> r == Some(tokens[i].balance)
    ensures NoMonBefore(tokens, |tokens|) ==> r == Some(NotAvailable)
    ensures r.None? <==> exists i: nat :: ThrowsAt(tokens, i)
  {
    match FindMon(tokens)
    case Found(i) =>
      StopsOnce(tokens, i);
      Some(tokens[i].balance)
    case Absent =>
      Some(NotAvailable)
    case Threw(i) =>
      StopsOnce(tokens, i);
      None
  }

  /** `find` stops at one place at most: a first MON entry or a hole before
      any MON entry, never both and never two of either. */
  lemma StopsOnce(tokens: seq<Entry>, i: nat)
    requires FirstMonAt(tokens, i) || ThrowsAt(tokens, i)
    ensures forall j: nat :: FirstMonAt(tokens, j) ==> FirstMonAt(tokens, i) && j == i
    ensures forall j: nat :: ThrowsAt(tokens, j) ==> ThrowsAt(tokens, i) && j == i
    ensures !NoMonBefore(tokens, |tokens|)
  {
    forall j: nat | FirstMonAt(tokens, j) || ThrowsAt(tokens, j)
      ensures j == i
    {
    }
  }

  /** A leading token with another symbol is passed over. */
  lemma SkipOther(tokens: seq<Entry>)
    requires tokens != [] && tokens[0].Token? && tokens[0].symbol != Mon
    ensures MonBalance(tokens) == MonBalance(tokens[1..])
  {
    match FindMon(tokens[1..])
    case Found(i) =>
      assert tokens[i + 1] == tokens[1..][i];
    case Threw(i) =>
    case Absent =>
  }

  /** Entries that are tokens with another symbol do not change the balance
      shown, wherever they stand before the rest of the list. */
  lemma {:induction false} OtherTokensIgnored(others: seq<Entry>, tokens: seq<Entry>)
    requires NoMonBefore(others, |others|)
    ensures MonBalance(others + tokens) == MonBalance(tokens)
  {
    if others != [] {
      assert (others + tokens)[0] == others[0];
      assert (others + tokens)[1..] == others[1..] + tokens;
      SkipOther(others + tokens);
      OtherTokensIgnored(others[1..], tokens);
    } else {
      assert others + tokens == tokens;
    }
  }

  /** Nothing after the first MON entry is looked at: the entries behind it
      may be anything, holes included. */
  lemma FirstMonWins(before: seq<Entry>, balance: string, after: seq<Entry>)
    requires NoMonBefore(before, |before|)
    ensures MonBalance(before + [Token(Mon, balance)] + after) == Some(balance)
  {
    var tokens := before + [Token(Mon, balance)] + after;
    assert FirstMonAt(tokens, |before|);
  }
}
