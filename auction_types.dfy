/** The record shapes of types/auction.ts that the engine produces and consumes. */
module AuctionTypes {
  import opened Wrappers

  /** A closed auction. The `images` list of the record in types/auction.ts is left out:
      the scraper never fills it in. */
  datatype AuctionItem = AuctionItem(id: string, title: string, price: int, endTime: string, url: string)

  /** Rounded average, maximum and minimum of a list of prices. */
  datatype Statistics = Statistics(average: int, max: int, min: int)

  /** The body of a search request. An absent keyword is the empty string
      (both are falsy and behave alike); an absent or null limit is `None`. */
  datatype SearchRequest = SearchRequest(sellerUrl: string, keyword: string, limit: Option<int>)
}
