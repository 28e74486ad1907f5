/**
 * The registry of handlers for server-initiated messages. A request method
 * has at most one handler (a later registration replaces the earlier one and
 * logs a warning); a notification method has a list of handlers, all of
 * which run.
 */
module HookRegistry {
  import opened Wrappers

  type Method = string

  /** A handler, identified by an opaque number, for requests or for notifications. */
  datatype Hook = RequestHook(handler: nat) | NotificationHook(handler: nat)

  datatype Registry = Registry(requests: map<Method, nat>, notifications: map<Method, seq<nat>>)

  const Empty: Registry := Registry(map[], map[])

  /** `get_request_hook(name)`. */
  function GetRequestHook(reg: Registry, name: Method): Option<nat> {
    if name in reg.requests then Some(reg.requests[name]) else None
  }

  /** `get_notification_hooks(name)`: the handlers in registration order, possibly none. */
  function GetNotificationHooks(reg: Registry, name: Method): seq<nat> {
    if name in reg.notifications then reg.notifications[name] else []
  }

  /**
   * `register(name, hook)`. Returns the new registry and whether the
   * overwrite warning was logged.
   */
  function Register(reg: Registry, name: Method, hook: Hook): (r: (Registry, bool))
    ensures hook.RequestHook? ==>
      && GetRequestHook(r.0, name) == Some(hook.handler)
      && r.1 == GetRequestHook(reg, name).Some?
      && r.0.notifications == reg.notifications
    ensures hook.NotificationHook? ==>
      && GetNotificationHooks(r.0, name) == GetNotificationHooks(reg, name) + [hook.handler]
      && !r.1
      && r.0.requests == reg.requests
    ensures forall m :: m != name ==>
      GetRequestHook(r.0, m) == GetRequestHook(reg, m)
      && GetNotificationHooks(r.0, m) == GetNotificationHooks(reg, m)
  {
    match hook
    case RequestHook(h) =>
      (Registry(reg.requests[name := h], reg.notifications), name in reg.requests)
    case NotificationHook(h) =>
      (Registry(reg.requests, reg.notifications[name := GetNotificationHooks(reg, name) + [h]]), false)
  }

  /** Registering one request hook and then another: the second wins, with one warning. */
  lemma RequestOverwrite(name: Method, h1: nat, h2: nat)
    ensures
      var (reg1, warn1) := Register(Empty, name, RequestHook(h1));
      var (reg2, warn2) := Register(reg1, name, RequestHook(h2));
      && !warn1 && warn2
      && GetRequestHook(reg2, name) == Some(h2)
  {
  }

  /** Two notification hooks for one method are both kept, in order. */
  lemma NotificationsAccumulate(name: Method, h1: nat, h2: nat)
    ensures
      var reg1 := Register(Empty, name, NotificationHook(h1)).0;
      var reg2 := Register(reg1, name, NotificationHook(h2)).0;
      && GetNotificationHooks(reg1, name) == [h1]
      && GetNotificationHooks(reg2, name) == [h1, h2]
  {
  }
}
