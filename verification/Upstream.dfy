/** ComicVine as an oracle over a fixed list: it may refuse or fail any request and answers honestly
    otherwise. */
module Upstream {
  import opened Wrappers

  /** What becomes of a request. An empty list may be answered as a page or as "not found". */
  datatype Fate = Answer(emptyAsNotFound: bool) | Refuse | Fail

  datatype Reply<+T> = Page(results: seq<T>, total: nat) | NotFound | RateLimited | Error

  /** The page of at most `size` entries of a list that starts at `offset`. */
  function PageAt<T>(all: seq<T>, offset: nat, size: nat, fate: Fate): Reply<T> {
    match fate
    case Refuse => RateLimited
    case Fail => Error
    case Answer(asNotFound) =>
      if |all| == 0 && asNotFound then NotFound
      else Page(if offset < |all| then all[offset..Min(offset + size, |all|)] else [], |all|)
  }

  /** The first `n` requests were answered. */
  ghost predicate Answered(fate: nat -> Fate, n: nat) { forall i :: 0 <= i < n ==> fate(i).Answer? }

  /** A search hit; `name` is its lower-cased name, "" if it has none. */
  datatype Item = Item(id: nat, name: string)
}
