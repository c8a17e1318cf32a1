/** The member-deletion handler of cmd/web/handlers.go and its guard
    against an administrator deleting their own account. The delete
    operation of the data package is not part of this model: it is a
    parameter giving the error it reports for an id. */
module Members {
  import opened Errors
  import opened Responses
  import opened Strconv
  import Lending

  const SelfDeletion := "You cannot delete your own account."

  /** deleteMember: `idParam` is the `{id}` path segment, `currentUserID`
      the session's authenticated user and `remove` the delete operation.
      Deletion is attempted exactly for an acceptable id that is not the
      current user's; a bad id is a 404 and the user's own id returns to the
      dashboard with an error, neither touching the store. */
  function DeleteMember(idParam: string, currentUserID: int, remove: int -> Option<Error>): (h: Handled<int>)
    ensures h.call.Some? <==> Lending.ValidPathId(idParam) && ParseInt(idParam).value != currentUserID
    ensures h.call.Some? ==> h.call.value == ParseInt(idParam).value && h.call.value != currentUserID
    ensures !Lending.ValidPathId(idParam) ==> h.response == NotFound
    ensures Lending.ValidPathId(idParam) && ParseInt(idParam).value == currentUserID ==>
              h.response == SeeOther("/dashboard", FlashError(SelfDeletion))
    ensures h.call.Some? ==>
              (h.response == NotFound <==> remove(h.call.value) == Some(ErrRecordNotFound))
              && (h.response.ServerError? <==> remove(h.call.value).Some? && remove(h.call.value) != Some(ErrRecordNotFound))
              && (remove(h.call.value).None? ==> h.response == SeeOther("/dashboard", Info("Member deleted successfully.")))
    ensures h.response.ServerError? ==> h.call.Some? && Some(h.response.cause) == remove(h.call.value)
  {
    var id := ParseInt(idParam);
    if id.err != Nil || id.value < 1 then Handled(NotFound, None)
    else if currentUserID == id.value then Handled(SeeOther("/dashboard", FlashError(SelfDeletion)), None)
    else
      match remove(id.value)
      case None => Handled(SeeOther("/dashboard", Info("Member deleted successfully.")), Some(id.value))
      case Some(e) =>
        if e == ErrRecordNotFound then Handled(NotFound, Some(id.value))
        else Handled(ServerError(e), Some(id.value))
  }

  /** An administrator who asks to delete their own account, by the path
      the dashboard builds for it, is refused and nothing is deleted. */
  lemma OwnAccountIsKept(currentUserID: int, remove: int -> Option<Error>)
    requires 1 <= currentUserID <= MaxInt64
    ensures DeleteMember(FormatInt(currentUserID), currentUserID, remove)
            == Handled(SeeOther("/dashboard", FlashError(SelfDeletion)), None)
  {
    ParseFormatRoundTrip(currentUserID);
  }
}
