/** The favourites hook: a list of event ids toggled one at a time. */
module Favorites {
  import ListToggle

  /** The `favorites` state of `useEvents`. */
  class FavoritesStore {
    var favorites: seq<string>

    /** `useState<string[]>([])`. */
    constructor ()
      ensures favorites == []
    {
      favorites := [];
    }

    /** `favorites.includes(eventId)`. */
    predicate IsFavorite(eventId: string)
      reads this
    {
      eventId in favorites
    }

    /** `toggleFavorite`: remove every copy of a present id, append an absent one. */
    method ToggleFavorite(eventId: string)
      modifies this
      ensures favorites == ListToggle.Toggle(old(favorites), eventId)
      ensures IsFavorite(eventId) == !old(IsFavorite(eventId))
      ensures forall id :: id != eventId ==> (IsFavorite(id) <==> old(IsFavorite(id)))
    {
      favorites := ListToggle.Toggle(favorites, eventId);
    }
  }
}
