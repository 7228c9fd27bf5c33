/** The records the engine reads and returns; dates are calendar day numbers. */
module Models {
  import opened Wrappers
  import opened Calendar

  datatype Booking = Booking(hotelId: string, arrival: Date, departure: Date, roomType: string)

  datatype RoomType = RoomType(code: string, overbooking: bool)

  datatype Room = Room(roomId: string, roomType: string)

  /** A hotel as loaded; either list may be missing (null) in the data. */
  datatype Hotel = Hotel(id: string, roomTypes: Option<seq<RoomType>>, rooms: Option<seq<Room>>)

  datatype RoomAvailabilityCommand = RoomAvailabilityCommand(
    hotelId: string, startDate: Date, endDate: Date, roomType: string, allowOverbooking: bool)

  datatype RoomsAvailability = RoomsAvailability(startDate: Date, endDate: Date, count: int)
}
