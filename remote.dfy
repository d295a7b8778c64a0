/**
 * The record producers leave in the remote `sys_sync_stream` table, as the
 * sync cycle decodes it, and the effect of the cycle's filtered delete on
 * that table. Every column may be missing, so every field is optional.
 */
module Remote {
  import opened Optional

  /** One queued record: `event_id`, `source_app`, `header`, `payload`, `timestamp`. */
  datatype RemoteData = RemoteData(
    id: Option<string>,
    sourceApp: Option<string>,
    header: Option<string>,
    payload: Option<string>,
    createdAt: Option<string>)

  /** The cycle only processes a record that has both an event id and a timestamp. */
  predicate WellFormed(d: RemoteData): (r: bool)
    ensures !r <==> d.id == None || d.createdAt == None
  {
    d.id.Some? && d.createdAt.Some?
  }

  /**
   * `delete { filter { eq("event_id", key) } }`: every queued record whose event id equals `key`
   * goes, every other one stays, as many times as it was queued and in order. A record without
   * an event id never equals anything.
   */
  function WithoutId(queue: seq<RemoteData>, key: string): (r: seq<RemoteData>)
    ensures forall d :: d in r <==> d in queue && d.id != Some(key)
    ensures |r| <= |queue|
    ensures forall d :: multiset(r)[d] == if d.id == Some(key) then 0 else multiset(queue)[d]
  {
    assert queue != [] ==> queue == [queue[0]] + queue[1..];
    if queue == [] then []
    else if queue[0].id == Some(key) then WithoutId(queue[1..], key)
    else [queue[0]] + WithoutId(queue[1..], key)
  }
}
