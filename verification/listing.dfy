/** The list routes return their documents newest first (`sort({ createdAt: -1 })`).
    Ids come from the store's clock, so newest first is descending id order. */
module Listing {
  import opened Common
  import opened Books
  import opened BookRequests
  import opened Store
  import opened BookRoutes
  import opened RequestRoutes

  /** Every key of `m` whose value passes `keep`, largest key first. */
  method NewestFirst<V>(m: map<nat, V>, bound: nat, keep: V -> bool) returns (ids: seq<nat>)
    requires forall k :: k in m ==> k < bound
    ensures forall i, j :: 0 <= i < j < |ids| ==> ids[i] > ids[j]
    ensures forall k :: k in ids <==> k in m && keep(m[k])
  {
    ids := [];
    var n := bound;
    while n > 0
      invariant n <= bound
      invariant forall i, j :: 0 <= i < j < |ids| ==> ids[i] > ids[j]
      invariant forall i :: 0 <= i < |ids| ==> ids[i] >= n
      invariant forall k :: k in ids <==> k in m && keep(m[k]) && k >= n
    {
      n := n - 1;
      if n in m && keep(m[n]) {
        ids := ids + [n];
      }
    }
  }

  /** `GET /api/books`: the available books, newest first. */
  method ListAvailable(s: State) returns (ids: seq<BookId>)
    requires IdsIssued(s)
    ensures forall i, j :: 0 <= i < j < |ids| ==> ids[i] > ids[j]
    ensures forall b :: b in ids <==> b in AvailableBooks(s)
  {
    ids := NewestFirst(s.books, s.clock, (b: Book) => b.isAvailable);
  }

  /** `GET /api/books/my-books`: the caller's books, available or not, newest first. */
  method ListMyBooks(s: State, user: UserId) returns (ids: seq<BookId>)
    requires IdsIssued(s)
    ensures forall i, j :: 0 <= i < j < |ids| ==> ids[i] > ids[j]
    ensures forall b :: b in ids <==> b in BooksOwnedBy(s, user)
  {
    ids := NewestFirst(s.books, s.clock, (b: Book) => b.owner == user);
  }

  /** `GET /api/requests/sent`: the caller's own requests, newest first. */
  method ListSent(s: State, user: UserId) returns (ids: seq<RequestId>)
    requires IdsIssued(s)
    ensures forall i, j :: 0 <= i < j < |ids| ==> ids[i] > ids[j]
    ensures forall q :: q in ids <==> q in SentBy(s, user)
  {
    ids := NewestFirst(s.requests, s.clock, (r: BookRequest) => r.requester == user);
  }

  /** `GET /api/requests/received`: requests on the caller's books, newest first. */
  method ListReceived(s: State, user: UserId) returns (ids: seq<RequestId>)
    requires IdsIssued(s)
    ensures forall i, j :: 0 <= i < j < |ids| ==> ids[i] > ids[j]
    ensures forall q :: q in ids <==> q in ReceivedBy(s, user)
  {
    ids := NewestFirst(s.requests, s.clock, (r: BookRequest) => r.owner == user);
  }
}
