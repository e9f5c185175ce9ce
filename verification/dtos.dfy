/**
 * The data-transfer records of Models/DTOs: TripDTO and CountryDTO (TripDTO.cs),
 * and the ClientTripDto and ClientDTO records the client service and controller use.
 */
module Dtos {
  import opened Wrappers
  import opened Dates

  /** A DateTime read from a trip row; the model never looks inside it. */
  datatype Timestamp = Timestamp(ticks: int)

  datatype CountryDTO = CountryDTO(id: int, name: string)

  datatype TripDTO = TripDTO(
    id: int,
    name: string,
    description: string,
    startDateTime: Timestamp,
    endDateTime: Timestamp,
    maxPeople: int,
    countries: seq<CountryDTO>)
  {
    /** `Equals(object? obj)`: true only for another TripDTO, and then by Id alone. */
    predicate Equals(obj: Obj)
    {
      match obj
      case Trip(other) => id == other.id
      case _ => false
    }
  }

  /** What `Equals(object? obj)` may be handed: null, a TripDTO, or an object of another class. */
  datatype Obj = Null | Trip(trip: TripDTO) | Other

  /** One trip of a client, with the dates of the client's registration for it. */
  datatype ClientTripDto = ClientTripDto(trip: TripDTO, registrationDate: Date, paymentDate: Option<Date>)

  /** The client fields posted to the controller. */
  datatype ClientDTO = ClientDTO(firstName: string, lastName: string, email: string, telephone: string, pesel: string)

  /** Equality of TripDTOs is equality of their ids. */
  lemma EqualsIffSameId(a: TripDTO, obj: Obj)
    ensures a.Equals(obj) <==> obj.Trip? && obj.trip.id == a.id
  {
  }

  /** Null and objects of other classes are never equal to a TripDTO. */
  lemma EqualsRejectsNonTrips(a: TripDTO)
    ensures !a.Equals(Null) && !a.Equals(Other)
  {
  }

  /** Two trips that differ only outside Id (name, description, dates, capacity, countries) are equal. */
  lemma EqualsIgnoresOtherFields(a: TripDTO, name: string, description: string, start: Timestamp,
                                 end: Timestamp, maxPeople: int, countries: seq<CountryDTO>)
    ensures a.Equals(Trip(a.(name := name, description := description, startDateTime := start,
                             endDateTime := end, maxPeople := maxPeople, countries := countries)))
  {
  }

  /** Equals is an equivalence relation on TripDTOs. */
  lemma EqualsIsEquivalence(a: TripDTO, b: TripDTO, c: TripDTO)
    ensures a.Equals(Trip(a))
    ensures a.Equals(Trip(b)) <==> b.Equals(Trip(a))
    ensures a.Equals(Trip(b)) && b.Equals(Trip(c)) ==> a.Equals(Trip(c))
  {
  }
}
