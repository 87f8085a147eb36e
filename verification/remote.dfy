/** The remote compound service and the local file store, as inputs. Nothing
    here performs I/O: a server is the outcome each request attempt would meet. */
module Remote {
  import opened Wrappers
  import opened Store

  newtype byte = x: int | 0 <= x < 256

  /** The three structure artifacts fetched per compound. */
  datatype Artifact = Sdf2d | Sdf3d | Png

  /** Outcome of one HTTP attempt: the body read, an error of the kinds the batch
      downloader catches (`HTTPError`, `URLError`, `TimeoutError`), or any other
      exception raised while requesting, reading or writing. */
  datatype Attempt = Response(body: seq<byte>) | NetworkError | OtherError

  /** Outcome of attempt number `n` (counted from 1) of one download. */
  type Attempts = nat -> Attempt

  /** The structure endpoints: the attempts a download of `artifact` for `cid` meets. */
  type Server = (Artifact, int) -> Attempts

  /** Files under the static directory: path to content. */
  type Files = map<string, seq<byte>>

  /** The plain-text single-property endpoint: the decoded body, or the request failed. */
  datatype TextResponse = TextBody(text: string) | TextFailed

  /** Everything the web app asks of the compound service, per compound id:
      the structure downloads; the batched property table reduced to the
      fifteen requested properties (a property absent or JSON null is `None`;
      the whole value is `None` when the request, the decoding or the lookup of
      the first entry raises); and the single-property text endpoint. */
  datatype Service = Service(
    structures: Server,
    properties: int -> Option<DescriptorRecord>,
    text: (int, string) -> TextResponse)
}
