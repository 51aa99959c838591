/** The records of the room registry (src/models.py). */
module Models {

  /** A bookable room. `id` is the room's calendar id at the calendar service. */
  datatype Room = Room(id: string, name: string, floor: int, capacity: int)
}
