/** Records, messages and parameters of the auction module, with their basic validation. */
module AuctionTypes {
  import opened Decimal
  import opened Integers
  import opened Outcomes

  const USOMM := "usomm"
  const COIN_EXPONENT := 6
  const MODULE_NAME := "auction"
  const GRAVITY_DENOM_PREFIX := "gravity"
  const BRIDGED_DENOM_PREFIX := "gravity0x"

  datatype Error =
    | AuctionNotFound | BidAuctionDenomMismatch | BidAmountIsTooSmall | InsufficientBid
    | MinimumPurchaseAmountLargerThanTokensRemaining | InsufficientFunds
    | AuctionIDMustBeNonZero | AuctionStartingAmountMustBePositive | CannotAuctionUsomm | InvalidStartBlock
    | InvalidInitialDecreaseRate | InvalidCurrentDecreaseRate | InvalidBlockDecreaseInterval
    | PriceMustBePositive | UnauthorizedFundingModule | UnauthorizedProceedsModule
    | BidIDMustBeNonZero | AddressExpected | BidAmountMustBePositive | BidMustBeInUsomm
    | InvalidTokenBeingBidOn | MinimumAmountMustBePositive | BidFulfilledSaleTokenAmountMustBeNonNegative
    | BidUnitPriceInUsommMustBePositive | BidPaymentCannotBeNegative
    | AuctionBelowMinimumHeight | CouldNotFindSaleTokenPrice | LastSaleTokenPriceTooOld
    | CouldNotFindSommTokenPrice | LastSommTokenPriceTooOld | CannotStartTwoAuctionsForSameDenomSimultaneously
    | TokenPriceProposalMustHaveAtLeastOnePrice | TokenPriceProposalAttemptsToUpdateTokenPriceMoreThanOnce
    | DenomCannotBeEmpty | InvalidTokenPriceDenom | TokenPriceExponentTooHigh | InvalidParams

  /** Why a handler panics. */
  datatype Abort =
    | Int64Overflow
    | DecimalOverflow
    | DivisionByZero
    | InvalidAuction(error: Error)
    | PurchaseNotTransferred
    | FinishFailed(cause: Error)

  type Checked<T> = Outcome<T, Error, Abort>

  function Require(condition: bool, error: Error): Checked<()> {
    if condition then Ok(()) else Fail(error)
  }

  datatype Coin = Coin(denom: string, amount: int)

  datatype Auction = Auction(
    id: uint32,
    starting: Coin,
    startBlock: uint64,
    endBlock: uint64,
    initialRate: int,
    currentRate: int,
    interval: uint64,
    initialPrice: int,
    currentPrice: int,
    remaining: Coin,
    fundingModule: string,
    proceedsModule: string)
  {
    function ValidateBasic(): Checked<()> {
      if id == 0 then Fail(AuctionIDMustBeNonZero)
      else if starting.amount <= 0 then Fail(AuctionStartingAmountMustBePositive)
      else if starting.denom == USOMM then Fail(CannotAuctionUsomm)
      else if startBlock == 0 then Fail(InvalidStartBlock)
      else if !(0 < initialRate < ONE) then Fail(InvalidInitialDecreaseRate)
      else if !(0 < currentRate < ONE) then Fail(InvalidCurrentDecreaseRate)
      else if interval == 0 then Fail(InvalidBlockDecreaseInterval)
      else if initialPrice <= 0 then Fail(PriceMustBePositive)
      else if currentPrice <= 0 then Fail(PriceMustBePositive)
      else if fundingModule == "" then Fail(UnauthorizedFundingModule)
      else if proceedsModule == "" then Fail(UnauthorizedFundingModule)
      else Ok(())
    }
  }

  datatype Bid = Bid(
    id: uint64,
    auctionId: uint32,
    bidder: string,
    maxBid: Coin,
    minimum: Coin,
    fulfilled: Coin,
    unitPrice: int,
    paid: Coin,
    blockHeight: uint64)
  {
    function ValidateBasic(): Checked<()> {
      if id == 0 then Fail(BidIDMustBeNonZero)
      else if auctionId == 0 then Fail(AuctionIDMustBeNonZero)
      else if bidder == "" then Fail(AddressExpected)
      else if maxBid.amount <= 0 then Fail(BidAmountMustBePositive)
      else if maxBid.denom != USOMM then Fail(BidMustBeInUsomm)
      else if !(GRAVITY_DENOM_PREFIX <= minimum.denom) then Fail(InvalidTokenBeingBidOn)
      else if minimum.amount <= 0 then Fail(MinimumAmountMustBePositive)
      else if fulfilled.amount < 0 then Fail(BidFulfilledSaleTokenAmountMustBeNonNegative)
      else if unitPrice <= 0 then Fail(BidUnitPriceInUsommMustBePositive)
      else if paid.amount < 0 then Fail(BidPaymentCannotBeNegative)
      else if paid.denom != USOMM then Fail(BidMustBeInUsomm)
      else Ok(())
    }
  }

  datatype MsgSubmitBid = MsgSubmitBid(auctionId: uint32, maxBid: Coin, minimum: Coin, signer: string) {
    function ValidateBasic(): Checked<()> {
      if auctionId == 0 then Fail(AuctionIDMustBeNonZero)
      else if maxBid.denom != USOMM then Fail(BidMustBeInUsomm)
      else if maxBid.amount <= 0 then Fail(BidAmountMustBePositive)
      else if minimum.amount <= 0 then Fail(MinimumAmountMustBePositive)
      else if !(BRIDGED_DENOM_PREFIX <= minimum.denom) then Fail(InvalidTokenBeingBidOn)
      else if signer == "" then Fail(AddressExpected)
      else Ok(())
    }
  }

  datatype TokenPrice = TokenPrice(denom: string, exponent: uint64, usdPrice: int, lastUpdatedBlock: uint64)

  datatype ProposedTokenPrice = ProposedTokenPrice(denom: string, exponent: uint64, usdPrice: int) {
    function ValidateBasic(): Checked<()> {
      if denom == "" then Fail(DenomCannotBeEmpty)
      else if usdPrice <= 0 then Fail(PriceMustBePositive)
      else if !(GRAVITY_DENOM_PREFIX <= denom || denom == USOMM) then Fail(InvalidTokenPriceDenom)
      else if exponent > 18 then Fail(TokenPriceExponentTooHigh)
      else Ok(())
    }
  }

  datatype Params = Params(
    priceMaxBlockAge: uint64,
    minimumBidInUsomm: uint64,
    auctionMaxBlockAge: uint64,
    acceleration: int,
    minimumAuctionHeight: uint64)
  {
    predicate Valid() { priceMaxBlockAge != 0 && 0 <= acceleration <= ONE }
  }
}
