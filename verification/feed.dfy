/** The shape of one upstream feed record (a "marker") as the sync routine
    reads it, and the errors it can raise.

    Nested objects that the routine dereferences WITHOUT optional chaining are
    still `Option`s here: the feed is plain JSON and nothing checks it against
    the declared interface, so an absent object is a run-time TypeError, which
    the model has to be able to express. */
module Feed {
  import opened Wrappers

  /** A wall-clock instant (milliseconds since the epoch). */
  type Time = int

  /** A property read through a required nested object that may be absent. */
  datatype Property = City | Text | RoomsCount | SquareMeterBuild | CoverImage | Lat

  function PropertyName(p: Property): string
  {
    match p
    case City => "city"
    case Text => "text"
    case RoomsCount => "roomsCount"
    case SquareMeterBuild => "squareMeterBuild"
    case CoverImage => "coverImage"
    case Lat => "lat"
  }

  /** A thrown JavaScript value: an error raised by the fetch or the storage
      layer, whose `message` is `None` when the thrown value has none, or the
      TypeError V8 raises for reading `property` of `undefined`. A JSON `null`
      object is treated as absent, so the "of null" wording is not modelled. */
  datatype Error =
    | Error(message: Option<string>)
    | TypeError(property: Property)

  /** The thrown value's `message` property. */
  function Message(e: Error): Option<string>
  {
    match e
    case Error(message) => message
    case TypeError(p) => Some("Cannot read properties of undefined (reading '" + PropertyName(p) + "')")
  }

  datatype House = House(number: int, floor: int)

  datatype Coords = Coords(lon: real, lat: real)

  /** Each `Option<string>` stands for a `{ text }` object: `None` when the
      object is absent. */
  datatype Address = Address(
    city: Option<string>,
    neighborhood: Option<string>,
    area: Option<string>,
    street: Option<string>,
    house: Option<House>,
    coords: Option<Coords>)

  /** `squareMeter` is `None` when the field is absent. */
  datatype Details = Details(
    property: Option<string>,
    roomsCount: real,
    squareMeter: Option<int>)

  /** `images` is `None` when the list is absent. */
  datatype MetaData = MetaData(
    coverImage: string,
    images: Option<seq<string>>,
    squareMeterBuild: Option<int>)

  datatype Marker = Marker(
    token: string,
    orderId: int,
    price: int,
    address: Option<Address>,
    additionalDetails: Option<Details>,
    metaData: Option<MetaData>)

  /** The feed client's result: the marker list, or the network/parse error. */
  type FeedResult = Result<seq<Marker>, Error>
}
