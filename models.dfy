/**
  The records of backend/src/models: a row of the loaded restaurant table and the
  two result records the analytics service produces. All are plain values.
 */
module Models {
  import opened Wrappers

  /**
    A `cuisines` cell: missing (`None` or NaN), comma-separated text, or a list
    that is already split. The loader does not read this column; a table built
    by another caller may carry it.
   */
  datatype CuisineCell = NoCuisines | CuisineText(text: string) | CuisineList(items: seq<string>)

  /** One row of the loaded table: a `Restaurant` with the optional `cuisines` cell beside it. */
  datatype Restaurant = Restaurant(
    name: string,
    location: string,
    restaurantType: string,
    rating: Option<real>,
    votes: int,
    approxCostForTwo: Option<int>,
    cuisines: CuisineCell)

  /** One group of the restaurant-type breakdown. */
  datatype RestaurantTypeSummary = RestaurantTypeSummary(
    restaurantType: string,
    count: int,
    percentage: real,
    avgRating: Option<real>,
    avgCostForTwo: Option<int>)

  /** One entry of the top-N ranking. */
  datatype TopRestaurant = TopRestaurant(
    name: string,
    location: string,
    rating: Option<real>,
    votes: int,
    restaurantType: string,
    cuisines: seq<string>,
    rank: int)
}
