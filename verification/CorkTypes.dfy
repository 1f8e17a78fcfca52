/** Records of the Axelar cork module, its errors, and what it is told by the chain around it. */
module CorkTypes {
  import opened AxelarProxy
  import opened BigEndian
  import opened Integers
  import opened Outcomes

  const HASH_LIMIT := WORD_LIMIT

  /** A 256-bit digest, read as a number. */
  type Hash = x: int | 0 <= x < HASH_LIMIT
  /** A validator's 20-byte address, read as a number. */
  type Validator = Address

  /** Bytes of a message or a record; far below the largest int, like every slice in memory. */
  type Bytes = s: seq<Byte> | |s| < 0x4000_0000_0000_0000

  /** A contract call that validators vote on. */
  datatype Cork = Cork(call: Bytes, chainId: uint64, target: string, deadline: uint64)

  datatype ScheduledKey = ScheduledKey(chain: uint64, height: uint64, id: Hash, validator: Validator, contract: Address)
  datatype WinningKey = WinningKey(chain: uint64, height: uint64, contract: Address)

  datatype CorkResult = CorkResult(cork: Cork, height: uint64, approved: bool, percentage: int)
  datatype ChainConfig = ChainConfig(id: uint64, name: string, proxyAddress: string)
  datatype UpgradeData = UpgradeData(chainId: uint64, payload: seq<Byte>, threshold: int64)
  datatype CellarIdSet = CellarIdSet(chainId: uint64, ids: seq<string>)
  datatype CorkParams = CorkParams(enabled: bool, ibcChannel: string, gmpAccount: string, corkTimeoutBlocks: uint64)

  /** Address formats and the digest, as functions of their argument. */
  datatype Env = Env(
    address: string -> Address,         // hexadecimal text to address; never fails
    text: Address -> string,            // the canonical text of an address
    isHex: string -> bool,
    account: string -> Option<string>,  // bech32 text to account
    digest: seq<Byte> -> Hash,
    moduleAccount: string,              // the module's own account
    moduleText: string)                 // and its bech32 text

  /** Canonical texts are valid and denote what they were made from. */
  ghost predicate Faithful(env: Env) {
    && env.account(env.moduleText) == Some(env.moduleAccount)
    && forall a: Address :: env.isHex(env.text(a)) && env.address(env.text(a)) == a
  }

  /** The staking module's view at the end of a block. */
  datatype Staking = Staking(powers: map<Validator, uint64>, total: nat)

  /** What a transfer's memo holds. */
  datatype Memo = NoMemo | NotJson | Body(destinationChain: string, destinationAddress: string, payload: seq<Byte>)
  datatype Packet = NotJsonPacket | Packet(sender: string, receiver: string, memo: Memo)

  datatype CorkError =
    | AxelarDisabled | NotADelegate | ChainNotFound | UnmanagedCellarAddress | SchedulingInThePast
    | NoCorkFound | NoUpgradeFound | NotYetExecutable | InsufficientFunds | TransferFailed
    | PublisherNotFound | ChainIdMustBeNonZero | InvalidEvmAddress
    | InvalidJson | InvalidGmpAccount | InvalidReceiver | InvalidSender | SenderIsNotTheModule
    | InvalidProxyAddress | InvalidDestination | BypassesProxy
    | NonceCannotBeZero | CorkDoesNotMatch | NoTargets | UpgradeDoesNotMatch | InvalidPayload

  datatype CorkAbort = ValidatorNotFound | DivisionByZero

  type Checked<T> = Outcome<T, CorkError, CorkAbort>

  function Require(condition: bool, error: CorkError): Checked<()> {
    if condition then Ok(()) else Fail(error)
  }

  /** The id of a cork scheduled for a height: it covers the chain, the contract and the call, but not the deadline. */
  function IdHash(env: Env, cork: Cork, height: uint64): Hash {
    env.digest(Encode(8, height) + Encode(8, cork.chainId) + Encode(20, env.address(cork.target)) + cork.call)
  }

  /** One call: same contract, same call data, same deadline. The chain is not compared. */
  predicate Equals(env: Env, a: Cork, b: Cork) {
    env.address(a.target) == env.address(b.target) && a.call == b.call && a.deadline == b.deadline
  }
}
