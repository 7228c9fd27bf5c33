/** HotelRepository: lookup of a hotel by id in the loaded hotel list. */
module HotelRepository {
  import opened Wrappers
  import opened Models

  /** Get(id): the first stored hotel whose Id equals id, or null (None). */
  function Get(hotels: seq<Hotel>, id: string): (r: Option<Hotel>)
    ensures r.Some? ==> r.value.id == id
  {
    if |hotels| == 0 then None
    else if hotels[0].id == id then Some(hotels[0])
    else Get(hotels[1..], id)
  }

  /** A hotel is found exactly when one with the id is stored, and it is one of the stored hotels. */
  lemma {:induction false} GetFinds(hotels: seq<Hotel>, id: string)
    ensures Get(hotels, id).Some? ==> Get(hotels, id).value in hotels
    ensures Get(hotels, id).None? <==> forall i :: 0 <= i < |hotels| ==> hotels[i].id != id
    decreases |hotels|
  {
    if |hotels| > 0 && hotels[0].id != id {
      GetFinds(hotels[1..], id);
      if Get(hotels, id).None? {
        forall i | 0 <= i < |hotels| ensures hotels[i].id != id {
          if i > 0 {
            assert hotels[1..][i - 1] == hotels[i];
          }
        }
      }
    }
  }

  /** The hotel returned is the first one with the id, in stored order. */
  lemma {:induction false} GetIsFirst(hotels: seq<Hotel>, id: string, i: nat)
    requires i < |hotels| && hotels[i].id == id
    requires forall j :: 0 <= j < i ==> hotels[j].id != id
    ensures Get(hotels, id) == Some(hotels[i])
  {
    if i > 0 {
      GetIsFirst(hotels[1..], id, i - 1);
    }
  }

  /** A later hotel with the same id is never returned unless it equals the first one. */
  lemma LaterDuplicateHidden(hotels: seq<Hotel>, id: string, i: nat, j: nat)
    requires i < j < |hotels| && hotels[i].id == id && hotels[j].id == id
    requires forall k :: 0 <= k < i ==> hotels[k].id != id
    requires hotels[j] != hotels[i]
    ensures Get(hotels, id) != Some(hotels[j])
  {
    GetIsFirst(hotels, id, i);
  }
}
