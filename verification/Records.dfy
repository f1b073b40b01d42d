/** The records that pass through the indexer's queues and into the store. */
module Records {
  import opened Decimal
  import opened Float64
  import opened Variables

  /** One contract transaction. Its arguments and payloads are not part of this model. */
  datatype SCTXParse = SCTXParse(
    txid: string, scid: string, entrypoint: string, kind: string,
    sender: string, fees: Uint64, height: Int64)

  /** What the classifier queues for the database writer. */
  datatype Stage = Stage(tx: SCTXParse, headers: string, scVars: Snapshot, className: string, tags: string)

  /** What an install stores about a contract. */
  datatype Owner = Owner(owner: string, headers: string, className: string, tags: string, height: Int64)

  datatype NormalTx = NormalTx(txid: string, scid: string, fees: Uint64, height: Int64)

  datatype MBLInfo = MBLInfo(hash: string, miner: string)
}
