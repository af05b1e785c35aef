/**
  `download_file` as one transition on an abstract file store: the network is
  a parameter giving the reply a GET of each URL would receive, and the store
  maps paths to file contents.
 */
module Fetch {

  newtype byte = x: int | 0 <= x < 256

  type Path = string

  /** The files on disk, by path. */
  type Store = map<Path, seq<byte>>

  /** What a GET of a URL yields: a response with a status code and a body,
      or no response at all. */
  datatype Reply = Response(status: int, content: seq<byte>) | Unreachable

  datatype FetchError = HttpError(status: int) | ConnectionError

  datatype Outcome = Skipped | Written | Failed(error: FetchError)

  /** The store after the call, how many requests it issued, and how it
      ended. */
  datatype Step = Step(store: Store, requests: nat, outcome: Outcome)

  /** `raise_for_status`: client (4xx) and server (5xx) errors. */
  predicate IsHttpError(status: int) {
    400 <= status < 600
  }

  /** The reply to this request is accepted and its body can be written. */
  predicate Accepted(reply: Reply) {
    reply.Response? && !IsHttpError(reply.status)
  }

  /** `download_file(url, file_path)`. An existing path is a cache hit: no
      request, nothing changes. Otherwise one request is issued and the reply
      is checked before the file is opened, so a failed request writes
      nothing; an accepted reply's body becomes the file's content. */
  function DownloadFile(store: Store, url: string, path: Path, network: string -> Reply): (s: Step)
    ensures path in store ==> s == Step(store, 0, Skipped)
    ensures path !in store ==> s.requests == 1
    ensures path !in store && Accepted(network(url)) ==>
              s == Step(store[path := network(url).content], 1, Written)
    ensures path !in store && network(url).Unreachable? ==> s.outcome == Failed(ConnectionError)
    ensures path !in store && network(url).Response? && IsHttpError(network(url).status) ==>
              s.outcome == Failed(HttpError(network(url).status))
    ensures s.outcome.Failed? ==> s.store == store && path !in s.store
    ensures path in s.store
            <==> !s.outcome.Failed?
  {
    if path in store then Step(store, 0, Skipped)
    else
      match network(url)
      case Unreachable => Step(store, 1, Failed(ConnectionError))
      case Response(status, content) =>
        if IsHttpError(status) then Step(store, 1, Failed(HttpError(status)))
        else Step(store[path := content], 1, Written)
  }

  /** Fetching the same path twice issues at most one request: once the
      first call has left the file in place, the second is a cache hit that
      changes nothing, whatever URL or network it is given. */
  lemma DownloadTwice(store: Store, url: string, url': string, path: Path,
                      network: string -> Reply, network': string -> Reply)
    ensures var first := DownloadFile(store, url, path, network);
            var second := DownloadFile(first.store, url', path, network');
            !first.outcome.Failed? ==>
              && second == Step(first.store, 0, Skipped)
              && first.requests + second.requests == (if path in store then 0 else 1)
  {
  }
}
