/**
 * The part of a Drive store that the handler's core talks to, as plain values.
 *
 * The listing endpoint is a finite sequence of responses: the first request
 * (no page token) gets response 0, and the token carried by response k leads
 * to response k + 1. A response is either a page of records or an error the
 * client raises. Asking for a page the store does not hold is an error too.
 */
module DriveStore {

  datatype Option<+T> = None | Some(value: T) {
    /** The value held, or `default` when there is none */
    function GetOr(default: T): T {
      match this
      case Some(v) => v
      case None => default
    }
  }

  /** A catalog entry as listed with the fields "files(id, name)" */
  datatype Record = Record(id: string, name: string)

  /** One answer of the listing endpoint */
  datatype Response =
    | Page(files: seq<Record>, next: Option<string>)
    | ListError

  /** Truthiness of `results.get('nextPageToken')`: absent and "" both end the walk */
  predicate HasToken(next: Option<string>) {
    next.Some? && next.value != ""
  }

  /** Requesting page k of the store */
  function Fetch(store: seq<Response>, k: nat): Response {
    if k < |store| then store[k] else ListError
  }

  /** The records a response contributes; an error contributes none */
  function FilesOf(r: Response): seq<Record> {
    if r.Page? then r.files else []
  }

  /** The records of a run of responses, concatenated in store order */
  function Flatten(pages: seq<Response>): seq<Record> {
    if pages == [] then [] else FilesOf(pages[0]) + Flatten(pages[1..])
  }

  lemma {:induction false} FlattenAppend(a: seq<Response>, b: seq<Response>)
    ensures Flatten(a + b) == Flatten(a) + Flatten(b)
  {
    if a == [] {
      assert a + b == b;
    } else {
      assert (a + b)[1..] == a[1..] + b;
      FlattenAppend(a[1..], b);
    }
  }
}
