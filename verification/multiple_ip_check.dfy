/** MultipleIPWindowCheck: fraud when a window transaction comes from a
    non-public address, or when more than four window transactions come from
    an address other than the current one. The comparison goes through
    `areSamePublicIP`, whose exception for a non-public current address is
    not caught, so evaluation can fail. */
module MultipleIpCheck {
  import opened Wrappers
  import opened Records
  import opened IpUtils

  const MaxDifferentIpAddresses: nat := 4
  const Severity: real := 0.75

  /** The window transaction's address, the loopback address when it does not parse. */
  function WindowAddress(parse: Parser, t: Transaction): Address {
    parse(t.publicIpAddress).GetOr(Loopback)
  }

  /** The loop of `evaluate` from some window position on, with the count of
      differing addresses met so far. */
  function Scan(parse: Parser, currentIp: string, window: seq<Transaction>, mixCount: nat): Result<Evaluation, IpError>
    decreases |window|
  {
    if window == [] then
      Success(if mixCount > MaxDifferentIpAddresses then Fraud else NotFraud)
    else if !IsPublic(WindowAddress(parse, window[0])) then
      Success(Fraud)
    else
      match AreSamePublicIp(parse, window[0].publicIpAddress, currentIp)
      case Failure(err) => Failure(err)
      case Success(same) => Scan(parse, currentIp, window[1..], if same then mixCount else mixCount + 1)
  }

  /** `evaluate`. */
  function Evaluate(parse: Parser, current: Transaction, window: seq<Transaction>): (res: Result<Evaluation, IpError>)
    ensures window == [] ==> res == Success(NotFraud)
  {
    if window == [] then Success(NotFraud)
    else Scan(parse, current.publicIpAddress, window, 0)
  }

  /** How many window transactions come from an address other than the current one. */
  function DifferentCount(parse: Parser, currentIp: string, window: seq<Transaction>): nat {
    if window == [] then 0
    else
      var here := if AddressesEqual(WindowAddress(parse, window[0]), parse(currentIp).GetOr(Loopback)) then 0 else 1;
      here + DifferentCount(parse, currentIp, window[1..])
  }

  predicate AllPublic(parse: Parser, window: seq<Transaction>) {
    forall k :: 0 <= k < |window| ==> PublicText(parse, window[k].publicIpAddress)
  }

  lemma {:induction false} ScanAllPublic(parse: Parser, currentIp: string, window: seq<Transaction>, mixCount: nat)
    requires PublicText(parse, currentIp) && AllPublic(parse, window)
    ensures Scan(parse, currentIp, window, mixCount)
      == Success(if mixCount + DifferentCount(parse, currentIp, window) > MaxDifferentIpAddresses then Fraud else NotFraud)
    decreases |window|
  {
    if window != [] {
      assert PublicText(parse, window[0].publicIpAddress);
      assert AllPublic(parse, window[1..]) by {
        forall k | 0 <= k < |window[1..]| ensures PublicText(parse, window[1..][k].publicIpAddress) {
          assert window[1..][k] == window[k + 1];
        }
      }
      var same := AddressesEqual(WindowAddress(parse, window[0]), parse(currentIp).value);
      ScanAllPublic(parse, currentIp, window[1..], if same then mixCount else mixCount + 1);
    }
  }

  /** With every address public: fraud iff more than four window addresses
      differ from the current one (exactly four is not fraud). */
  lemma AllPublicVerdict(parse: Parser, current: Transaction, window: seq<Transaction>)
    requires PublicText(parse, current.publicIpAddress) && AllPublic(parse, window)
    ensures Evaluate(parse, current, window)
      == Success(if DifferentCount(parse, current.publicIpAddress, window) > MaxDifferentIpAddresses then Fraud else NotFraud)
  {
    ScanAllPublic(parse, current.publicIpAddress, window, 0);
  }

  lemma {:induction false} DifferentCountZero(parse: Parser, current: Transaction, window: seq<Transaction>)
    requires forall k :: 0 <= k < |window| ==>
      AddressesEqual(WindowAddress(parse, window[k]), parse(current.publicIpAddress).GetOr(Loopback))
    ensures DifferentCount(parse, current.publicIpAddress, window) == 0
    decreases |window|
  {
    if window != [] {
      assert forall k :: 0 <= k < |window[1..]| ==> window[1..][k] == window[k + 1];
      DifferentCountZero(parse, current, window[1..]);
    }
  }

  /** A window of public addresses all equal to the current, public one is not fraud. */
  lemma SameAddressNotFraud(parse: Parser, current: Transaction, window: seq<Transaction>)
    requires PublicText(parse, current.publicIpAddress) && AllPublic(parse, window)
    requires forall k :: 0 <= k < |window| ==>
      AddressesEqual(WindowAddress(parse, window[k]), parse(current.publicIpAddress).value)
    ensures Evaluate(parse, current, window) == Success(NotFraud)
  {
    DifferentCountZero(parse, current, window);
    AllPublicVerdict(parse, current, window);
  }

  lemma {:induction false} ScanMeetsNonPublic(parse: Parser, currentIp: string, window: seq<Transaction>, mixCount: nat, k: nat)
    requires PublicText(parse, currentIp)
    requires k < |window| && !PublicText(parse, window[k].publicIpAddress)
    ensures Scan(parse, currentIp, window, mixCount) == Success(Fraud)
    decreases |window|
  {
    if PublicText(parse, window[0].publicIpAddress) {
      assert k != 0;
      assert window[1..][k - 1] == window[k];
      var same := AddressesEqual(WindowAddress(parse, window[0]), parse(currentIp).value);
      ScanMeetsNonPublic(parse, currentIp, window[1..], if same then mixCount else mixCount + 1, k - 1);
    } else {
      LoopbackNotPublic();
    }
  }

  /** With a public current address, a window address that is non-public
      or unparseable (so taken as loopback) makes the verdict fraud. */
  lemma NonPublicWindowAddress(parse: Parser, current: Transaction, window: seq<Transaction>, k: nat)
    requires PublicText(parse, current.publicIpAddress)
    requires k < |window| && !PublicText(parse, window[k].publicIpAddress)
    ensures Evaluate(parse, current, window) == Success(Fraud)
  {
    ScanMeetsNonPublic(parse, current.publicIpAddress, window, 0, k);
  }

  /** With a non-public or unparseable current address, the first window
      transaction decides: fraud if its own address is not public, otherwise
      `areSamePublicIP` raises for the current address. */
  lemma NonPublicCurrentAddress(parse: Parser, current: Transaction, window: seq<Transaction>)
    requires !PublicText(parse, current.publicIpAddress) && window != []
    ensures !PublicText(parse, window[0].publicIpAddress) ==> Evaluate(parse, current, window) == Success(Fraud)
    ensures PublicText(parse, window[0].publicIpAddress) ==>
      Evaluate(parse, current, window) == Failure(
        if parse(current.publicIpAddress).None? then InvalidAddress(current.publicIpAddress)
        else NotPublic(current.publicIpAddress))
  {
    LoopbackNotPublic();
  }
}
