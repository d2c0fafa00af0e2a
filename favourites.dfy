/** Favourite-rota membership of app/utils/rotas.py. */
module Favourites {
  import opened Wrappers
  import opened Records

  /** `is_favourite(user, rota_id)`: a user whose non-empty favourites list holds `rotaId`. */
  function IsFavourite(user: Option<User>, rotaId: int): (r: bool)
    ensures user.None? ==> !r
    ensures user.Some? && (user.value.favouriteRotas.None? || user.value.favouriteRotas.value == []) ==> !r
    ensures r <==> user.Some? && user.value.favouriteRotas.Some? && rotaId in user.value.favouriteRotas.value
  {
    match user
    case None => false
    case Some(u) =>
      match u.favouriteRotas
      case None => false
      case Some(favs) => if favs == [] then false else rotaId in favs
  }

  /** Adding rota ids to a user's favourites never drops a rota from them. */
  lemma IsFavouriteMonotone(u: User, more: seq<int>, rotaId: int)
    requires u.favouriteRotas.Some?
    ensures IsFavourite(Some(u), rotaId) ==>
      IsFavourite(Some(u.(favouriteRotas := Some(u.favouriteRotas.value + more))), rotaId)
  {
  }
}
