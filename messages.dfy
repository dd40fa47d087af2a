/** The message handler (adapter/static/src/worker/index.ts): pages ask the
    waiting worker to take over, unconditionally or only when at most one
    page is open. */
module Messages {

  /** What a page posts: the bare string of older releases, or an object
      with a `type` */
  datatype InputMessage = Text(text: string) | Typed(kind: string)

  /** An open window client, by the URL it shows */
  type Client = string

  /** What the handler does: the clients it reloads (`client.navigate(client.url)`)
      and whether it calls `skipWaiting()` */
  datatype MessageEffect = MessageEffect(reloads: seq<Client>, skipsWaiting: bool)

  /** The backward-compatible reading of the message: the bare string
      `skipWaiting` means `{ type: "skipWaiting" }`; any other bare string
      has no `type` at all. */
  function Normalize(msg: InputMessage): (m: InputMessage)
    ensures m.Typed? <==> msg.Typed? || msg == Text("skipWaiting")
    ensures msg.Typed? ==> m == msg
    ensures msg == Text("skipWaiting") ==> m == Typed("skipWaiting")
    ensures msg.Text? && msg != Text("skipWaiting") ==> m == msg
  {
    if msg == Text("skipWaiting") then Typed("skipWaiting") else msg
  }

  /** The message listener, given the clients `clients.matchAll` lists.
      The worker takes over on `skipWaiting` always, on
      `conditionalSkipWaiting` exactly when fewer than two clients are
      open, and on nothing else; only the conditional request reloads
      pages, and then only the single open page (if any). */
  function HandleMessage(msg: InputMessage, clients: seq<Client>): (e: MessageEffect)
    ensures e.skipsWaiting <==>
      || msg == Text("skipWaiting") || msg == Typed("skipWaiting")
      || (msg == Typed("conditionalSkipWaiting") && |clients| < 2)
    ensures |e.reloads| <= 1
    ensures e.reloads == (if msg == Typed("conditionalSkipWaiting") && |clients| < 2 then clients else [])
  {
    var data := Normalize(msg);
    if data == Typed("skipWaiting") then MessageEffect([], true)
    else if data == Typed("conditionalSkipWaiting") then
      if |clients| < 2 then MessageEffect(clients, true) else MessageEffect([], false)
    else MessageEffect([], false)
  }

  /** The legacy string and the typed message do the same thing. */
  lemma LegacySkipWaitingIsTyped(clients: seq<Client>)
    ensures HandleMessage(Text("skipWaiting"), clients) == HandleMessage(Typed("skipWaiting"), clients)
  {
  }
}
