/**
 * Candidate transaction outputs as the coin selector sees them, and the
 * eligibility rule applied to each one (AddressBalance.shouldSelect and
 * AddressBalance.isSelectable).
 */
module Outputs {

  import opened Wrappers

  /** The confidence types of a transaction as bitcoinj reports them. */
  datatype ConfidenceType = Building | Pending | InConflict | Dead | Unknown

  /** Who broadcast the transaction. */
  datatype Source = UnknownSource | Network | Self

  /** An address, reduced to its canonical text. */
  type Address = string

  /**
   * One candidate output, with the fields of its parent transaction's
   * confidence that selection looks at.
   *  - `toAddress` is None when the output script cannot be turned into an
   *    address (bitcoinj throws a ScriptException in that case);
   *  - `parentHash` is the parent transaction hash read as an unsigned integer;
   *  - `index` is the output's position in its parent transaction, so that two
   *    outputs of one transaction with equal value are still different outputs.
   */
  datatype Output = Output(
    value: nat,
    confidenceType: ConfidenceType,
    depth: nat,
    source: Source,
    broadcastPeers: nat,
    parentHash: nat,
    index: nat,
    toAddress: Option<Address>,
    available: bool)

  /** The whole money supply in satoshi, used as the "select everything" target. */
  const MAX_MONEY: int := 21_000_000 * 100_000_000

  /** Depth below which no transaction is selectable. */
  const MIN_DEPTH: nat := 4

  /** Broadcast peer count that a pending self-made transaction must exceed. */
  const MIN_BROADCAST_PEERS: nat := 1

  /** Thrown by the script when the destination address cannot be extracted. */
  datatype ScriptError = ScriptException(output: Output)

  /** Whether the parent transaction's confidence admits the output. */
  predicate IsSelectable(o: Output)
    ensures IsSelectable(o) ==> o.depth >= MIN_DEPTH && (o.confidenceType == Building || o.confidenceType == Pending)
  {
    if o.depth < MIN_DEPTH then false
    else o.confidenceType == Building
         || (o.confidenceType == Pending && o.source == Self && o.broadcastPeers > MIN_BROADCAST_PEERS)
  }

  /**
   * Whether the output pays `query`, is unspent and is selectable.  The
   * address is extracted before the try block of the source, so an output
   * without an address makes the call fail rather than answer false.
   */
  function ShouldSelect(query: Address, o: Output): (r: Result<bool, ScriptError>)
    ensures r.Err? <==> o.toAddress.None?
    ensures r == Ok(true) <==> o.toAddress == Some(query) && o.available && IsSelectable(o)
  {
    match o.toAddress
    case None => Err(ScriptException(o))
    case Some(a) =>
      if a == query then
        if o.available then Ok(IsSelectable(o)) else Ok(false)
      else Ok(false)
  }

  /** The outputs the walk may pick: those for which ShouldSelect answers true. */
  predicate Eligible(query: Address, o: Output)
  {
    ShouldSelect(query, o) == Ok(true)
  }

  /** The eligibility rule, case by case. */
  lemma IsSelectableCases(o: Output)
    ensures o.depth < 4 ==> !IsSelectable(o)
    ensures o.depth >= 4 && o.confidenceType == Building ==> IsSelectable(o)
    ensures o.depth >= 4 && o.confidenceType == Pending ==>
              (IsSelectable(o) <==> o.source == Self && o.broadcastPeers > 1)
    ensures o.confidenceType !in {Building, Pending} ==> !IsSelectable(o)
  {
  }

  /**
   * The comparator counts depth only for BUILDING transactions.  Where depth is
   * 0 for every other type, as the comparator assumes, a PENDING transaction is
   * never selectable and only BUILDING ones at depth at least 4 remain.
   */
  lemma SelectableOnlyBuildingWhenDepthIsBuildingOnly(o: Output)
    requires o.confidenceType != Building ==> o.depth == 0
    ensures IsSelectable(o) <==> o.confidenceType == Building && o.depth >= 4
  {
  }
}
