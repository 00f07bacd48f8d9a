/**
 * The values that travel from the subscriber through the job queue to the
 * download workers.  The notification payload is taken as already parsed
 * from JSON: only the members the worker reads are kept, and a member that
 * is missing at any level of `payload.properties.integrity` is `None`.
 */
module Jobs {
  import opened Wrappers

  /** One entry of `payload.links`: its `rel` and `href`, either possibly absent. */
  datatype Link = Link(rel: Option<string>, href: Option<string>)

  datatype Notification = Notification(
    links: seq<Link>,
    integrityHash: Option<string>,
    integrityMethod: Option<string>)

  /**
   * A queue entry: a download job `{topic, payload, target}` built by the
   * subscriber, or the `{'shutdown': True}` sentinel enqueued at shutdown.
   */
  datatype Job =
    | Download(topic: string, payload: Notification, target: string)
    | ShutdownSentinel
}
