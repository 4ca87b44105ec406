/** The stored listing record and the mapping from a feed marker to the
    fields written when a listing is created. */
module Listings {
  import opened Wrappers
  import opened Feed

  /** Where the property is; set at creation only. */
  datatype Location = Location(
    city: string,
    neighborhood: Option<string>,
    area: Option<string>,
    street: Option<string>,
    houseNumber: Option<int>,
    floor: Option<int>,
    lat: real,
    lon: real)

  /** What the property is; set at creation only. */
  datatype Physical = Physical(rooms: real, squareMeters: Option<int>, propertyType: Option<string>)

  /** Cover image and image list; set at creation only. The image list's
      serialisation is not modelled. */
  datatype Media = Media(coverImage: string, images: seq<string>)

  /** One stored listing. Its columns are flat in the table; the model groups
      the creation-only ones. `rawData` keeps the whole marker it was created
      from; its serialisation is not modelled. */
  datatype Listing = Listing(
    id: string,
    yad2Id: int,
    price: int,
    location: Location,
    physical: Physical,
    media: Media,
    rawData: Marker,
    firstSeenAt: Time,
    lastSeenAt: Time,
    isFavorite: bool,
    isHidden: bool)

  /** The listing table, keyed by listing id. */
  type Store = map<string, Listing>

  /** JavaScript truthiness of an optional number (NaN is not modelled). */
  predicate Truthy(n: Option<int>)
  {
    n.Some? && n.value != 0
  }

  /** Every nested object the create mapping dereferences without optional
      chaining is present. */
  predicate Mappable(m: Marker)
  {
    && m.address.Some?
    && m.address.value.city.Some?
    && m.address.value.coords.Some?
    && m.additionalDetails.Some?
    && m.metaData.Some?
  }

  /** The `create` object of the upsert, built for marker `m` at time `now`.
      The object literal is evaluated field by field, so a missing required
      object raises the TypeError of the first field that reads through it. */
  function CreateFields(m: Marker, now: Time): (r: Result<Listing, Error>)
    ensures r.Success? <==> Mappable(m)
    ensures m.address.None? ==> r == Failure(TypeError(City))
    ensures m.address.Some? && m.address.value.city.None? ==> r == Failure(TypeError(Text))
    ensures m.address.Some? && m.address.value.city.Some? && m.additionalDetails.None? ==>
              r == Failure(TypeError(RoomsCount))
    // Square-metre fallback: the details figure when present and non-zero,
    // otherwise the metadata's built-area figure, read only in that case.
    ensures m.additionalDetails.Some? && Truthy(m.additionalDetails.value.squareMeter) && r.Success? ==>
              r.value.physical.squareMeters == m.additionalDetails.value.squareMeter
    ensures m.additionalDetails.Some? && !Truthy(m.additionalDetails.value.squareMeter) && r.Success? ==>
              r.value.physical.squareMeters == m.metaData.value.squareMeterBuild
    ensures m.address.Some? && m.address.value.city.Some? && m.additionalDetails.Some?
              && !Truthy(m.additionalDetails.value.squareMeter) && m.metaData.None? ==>
              r == Failure(TypeError(SquareMeterBuild))
    ensures m.address.Some? && m.address.value.city.Some? && m.additionalDetails.Some?
              && Truthy(m.additionalDetails.value.squareMeter) && m.metaData.None? ==>
              r == Failure(TypeError(CoverImage))
    ensures m.address.Some? && m.address.value.city.Some? && m.additionalDetails.Some? && m.metaData.Some?
              && m.address.value.coords.None? ==>
              r == Failure(TypeError(Lat))
    // Optionally chained objects that are absent are stored as absent; a
    // missing image list is stored as the empty list.
    ensures r.Success? ==>
              var a := m.address.value;
              && (a.neighborhood.None? ==> r.value.location.neighborhood.None?)
              && (a.area.None? ==> r.value.location.area.None?)
              && (a.street.None? ==> r.value.location.street.None?)
              && (a.house.None? ==> r.value.location.houseNumber.None? && r.value.location.floor.None?)
              && (m.additionalDetails.value.property.None? ==> r.value.physical.propertyType.None?)
              && (m.metaData.value.images.None? ==> r.value.media.images == [])
    // Every other created field is copied from the marker's objects.
    ensures r.Success? ==>
              var a, d, meta := m.address.value, m.additionalDetails.value, m.metaData.value;
              && r.value.location.city == a.city.value
              && r.value.location.neighborhood == a.neighborhood
              && r.value.location.area == a.area
              && r.value.location.street == a.street
              && (a.house.Some? ==>
                    r.value.location.houseNumber == Some(a.house.value.number)
                    && r.value.location.floor == Some(a.house.value.floor))
              && r.value.location.lat == a.coords.value.lat
              && r.value.location.lon == a.coords.value.lon
              && r.value.physical.rooms == d.roomsCount
              && r.value.physical.propertyType == d.property
              && r.value.media.coverImage == meta.coverImage
              && (meta.images.Some? ==> r.value.media.images == meta.images.value)
    ensures r.Success? ==>
              && r.value.id == m.token
              && r.value.yad2Id == m.orderId
              && r.value.price == m.price
              && r.value.firstSeenAt == now
              && r.value.lastSeenAt == now
              && !r.value.isFavorite
              && !r.value.isHidden
              && r.value.rawData == m
  {
    if m.address.None? then Failure(TypeError(City))
    else if m.address.value.city.None? then Failure(TypeError(Text))
    else if m.additionalDetails.None? then Failure(TypeError(RoomsCount))
    else if !Truthy(m.additionalDetails.value.squareMeter) && m.metaData.None? then
      Failure(TypeError(SquareMeterBuild))
    else if m.metaData.None? then Failure(TypeError(CoverImage))
    else if m.address.value.coords.None? then Failure(TypeError(Lat))
    else
      var a := m.address.value;
      var d := m.additionalDetails.value;
      var meta := m.metaData.value;
      Success(Listing(
        id := m.token,
        yad2Id := m.orderId,
        price := m.price,
        location := Location(
          city := a.city.value,
          neighborhood := a.neighborhood,
          area := a.area,
          street := a.street,
          houseNumber := if a.house.Some? then Some(a.house.value.number) else None,
          floor := if a.house.Some? then Some(a.house.value.floor) else None,
          lat := a.coords.value.lat,
          lon := a.coords.value.lon),
        physical := Physical(
          rooms := d.roomsCount,
          squareMeters := if Truthy(d.squareMeter) then d.squareMeter else meta.squareMeterBuild,
          propertyType := d.property),
        media := Media(
          coverImage := meta.coverImage,
          images := if meta.images.Some? then meta.images.value else []),
        rawData := m,
        firstSeenAt := now,
        lastSeenAt := now,
        isFavorite := false,
        isHidden := false))
  }
}
