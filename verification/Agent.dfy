/** The session agent: requests over an unlocked vault, authenticated by a token. */
module AgentProtocol {
  import opened Common
  import opened Utf8
  import opened SecretName
  import L = LocalStore

  type Token = seq<u8>

  datatype Request = Get(token: Token, name: string)
                   | Put(token: Token, name: string, value: seq<u8>)
                   | List(token: Token)
                   | Status(token: Token)
                   | Signout(token: Token)

  datatype AgentError = InvalidToken | Failed(cause: L.StoreError)

  datatype Response = Secret(value: Option<seq<u8>>)
                    | Names(names: seq<string>)
                    | StatusOf(unlocked: bool, idleSecsRemaining: nat)
                    | Done
                    | Error(e: AgentError)

  /** A put that the agent answers with a save failure has changed the map in memory all the same. */
  predicate Effective(token: Token, req: Request, resp: Response) {
    req.Put? && req.token == token && (resp.Done? || (resp.Error? && resp.e.Failed? && resp.e.cause.Save?))
  }

  predicate Acknowledged(token: Token, req: Request, resp: Response) {
    req.Put? && req.token == token && resp.Done?
  }

  function After(token: Token, s: Secrets, req: Request, resp: Response): Secrets {
    if Effective(token, req, resp) then s[req.name := Some(req.value)] else s
  }

  /** The responses the agent may give to `req` when the vault holds `s`. */
  ghost predicate Answers(token: Token, s: Secrets, req: Request, resp: Response) {
    if req.token != token then resp == Error(InvalidToken)
    else
      match req
      case Get(_, name) =>
        resp == if name !in s then Secret(None)
                else if s[name].None? then Error(Failed(L.Unseal)) else Secret(s[name])
      case Put(_, name, _) =>
        && (resp.Done? || (resp.Error? && resp.e.Failed? && !resp.e.cause.Unseal?))
        && (ValidateSecretName(name).Some? <==> resp.Error? && resp.e.cause.Name?)
      case List(_) =>
        && resp.Names?
        && (forall n :: n in resp.names <==> n in s)
        && (forall i, j :: 0 <= i < j < |resp.names| ==> resp.names[i] != resp.names[j])
      case Status(_) => resp.StatusOf? && resp.unlocked
      case Signout(_) => resp.Done?
  }

  // ----- whole runs

  /** A run over the map: states[i] is the map before request i. */
  ghost predicate Run(token: Token, states: seq<Secrets>, reqs: seq<Request>, resps: seq<Response>) {
    && |states| == |reqs| + 1 && |resps| == |reqs|
    && forall i :: 0 <= i < |reqs| ==>
         Answers(token, states[i], reqs[i], resps[i]) && states[i + 1] == After(token, states[i], reqs[i], resps[i])
  }

  lemma RunExtends(token: Token, states: seq<Secrets>, reqs: seq<Request>, resps: seq<Response>,
                   req: Request, resp: Response, s: Secrets)
    requires Run(token, states, reqs, resps)
    requires Answers(token, states[|reqs|], req, resp) && s == After(token, states[|reqs|], req, resp)
    ensures Run(token, states + [s], reqs + [req], resps + [resp])
  {
  }

  /** The plain map that the acknowledged puts alone build. */
  function Replay(token: Token, s: Secrets, reqs: seq<Request>, resps: seq<Response>, n: nat): Secrets
    requires n <= |reqs| == |resps|
  {
    if n == 0 then s
    else
      var m := Replay(token, s, reqs, resps, n - 1);
      if Acknowledged(token, reqs[n - 1], resps[n - 1]) then m[reqs[n - 1].name := Some(reqs[n - 1].value)] else m
  }

  /** While every save succeeds, the agent is exactly a map updated by the acknowledged puts. */
  lemma {:induction false} RefinesMap(token: Token, states: seq<Secrets>, reqs: seq<Request>, resps: seq<Response>, n: nat)
    requires Run(token, states, reqs, resps) && n <= |reqs|
    requires forall i :: 0 <= i < n && Effective(token, reqs[i], resps[i]) ==> Acknowledged(token, reqs[i], resps[i])
    ensures states[n] == Replay(token, states[0], reqs, resps, n)
  {
    if n > 0 {
      RefinesMap(token, states, reqs, resps, n - 1);
    }
  }

  lemma {:induction false} Untouched(token: Token, states: seq<Secrets>, reqs: seq<Request>, resps: seq<Response>, name: string, i: nat, j: nat)
    requires Run(token, states, reqs, resps) && i <= j <= |reqs|
    requires forall k :: i <= k < j && Effective(token, reqs[k], resps[k]) ==> reqs[k].name != name
    ensures (name in states[i] <==> name in states[j]) && (name in states[i] ==> states[i][name] == states[j][name])
    decreases j - i
  {
    if i < j {
      Untouched(token, states, reqs, resps, name, i, j - 1);
    }
  }

  /** A get returns the value of the last effective put of its name. */
  lemma GetReturnsLastPut(token: Token, states: seq<Secrets>, reqs: seq<Request>, resps: seq<Response>, i: nat, j: nat)
    requires Run(token, states, reqs, resps) && i < j < |reqs|
    requires reqs[j].Get? && reqs[j].token == token
    requires Effective(token, reqs[i], resps[i]) && reqs[i].name == reqs[j].name
    requires forall k :: i < k < j && Effective(token, reqs[k], resps[k]) ==> reqs[k].name != reqs[j].name
    ensures resps[j] == Secret(Some(reqs[i].value))
  {
    Untouched(token, states, reqs, resps, reqs[j].name, i + 1, j);
    assert states[i + 1] == After(token, states[i], reqs[i], resps[i]);
    assert Answers(token, states[j], reqs[j], resps[j]);
  }

  /** The last put of `name` before request j that reached memory is request i, which did not reach the
      disk and carried another value than `value`. */
  ghost predicate Overrides(token: Token, reqs: seq<Request>, resps: seq<Response>, name: string, value: seq<u8>, i: nat, j: nat)
    requires i < j <= |reqs| == |resps|
  {
    && Effective(token, reqs[i], resps[i]) && !Acknowledged(token, reqs[i], resps[i])
    && reqs[i].name == name && reqs[i].value != value
    && forall k :: i < k < j && Effective(token, reqs[k], resps[k]) ==> reqs[k].name != name
  }

  /** The last effective put of a name from request a on. */
  lemma {:induction false} LastEffective(token: Token, reqs: seq<Request>, resps: seq<Response>, name: string, a: nat, j: nat)
    returns (i: nat)
    requires a < j <= |reqs| == |resps| && Effective(token, reqs[a], resps[a]) && reqs[a].name == name
    ensures a <= i < j && Effective(token, reqs[i], resps[i]) && reqs[i].name == name
    ensures forall k :: i < k < j && Effective(token, reqs[k], resps[k]) ==> reqs[k].name != name
    decreases j
  {
    i := j - 1;
    if i > a && !(Effective(token, reqs[i], resps[i]) && reqs[i].name == name) {
      i := LastEffective(token, reqs, resps, name, a, j - 1);
    }
  }

  /** When request a is the last acknowledged put of a name, a get returns its value, unless the last
      put of that name to reach memory is a later one whose save failed, with another value. */
  lemma GetReturnsLastAcknowledgedIff(token: Token, states: seq<Secrets>, reqs: seq<Request>, resps: seq<Response>, a: nat, j: nat)
    requires Run(token, states, reqs, resps) && a < j < |reqs|
    requires reqs[j].Get? && reqs[j].token == token
    requires Acknowledged(token, reqs[a], resps[a]) && reqs[a].name == reqs[j].name
    requires forall k :: a < k < j && Acknowledged(token, reqs[k], resps[k]) ==> reqs[k].name != reqs[j].name
    ensures resps[j] == Secret(Some(reqs[a].value)) <==>
      !exists i :: a < i < j && Overrides(token, reqs, resps, reqs[j].name, reqs[a].value, i, j)
  {
    var i := LastEffective(token, reqs, resps, reqs[j].name, a, j);
    GetReturnsLastPut(token, states, reqs, resps, i, j);
    if resps[j] != Secret(Some(reqs[a].value)) {
      assert Overrides(token, reqs, resps, reqs[j].name, reqs[a].value, i, j);
    }
    forall k | a < k < j && Overrides(token, reqs, resps, reqs[j].name, reqs[a].value, k, j)
      ensures k == i
    {
    }
  }

  /** It does happen: an acknowledged put, a put whose save fails, and a get that answers with the latter. */
  lemma GetCanMissTheAcknowledged(token: Token)
    returns (states: seq<Secrets>, reqs: seq<Request>, resps: seq<Response>)
    ensures Run(token, states, reqs, resps) && |reqs| == 3
    ensures Acknowledged(token, reqs[0], resps[0]) && reqs[0].value == [1]
    ensures reqs[1].Put? && !Acknowledged(token, reqs[1], resps[1])
    ensures reqs[2] == Get(token, reqs[0].name) && resps[2] == Secret(Some([2]))
  {
    var unsaved := Error(Failed(L.Save(L.Finalize)));
    reqs := [Put(token, "x", [1]), Put(token, "x", [2]), Get(token, "x")];
    resps := [Done, unsaved, Secret(Some([2]))];
    states := [map[], map["x" := Some([1])], map["x" := Some([2])], map["x" := Some([2])]];
    OneLetterIsValid('x');
    assert states[1] == After(token, states[0], reqs[0], resps[0]);
    assert states[2] == After(token, states[1], reqs[1], resps[1]);
    assert states[3] == After(token, states[2], reqs[2], resps[2]);
  }

  /** The items that belong to the first n requests with the token. */
  function Own<A>(token: Token, reqs: seq<Request>, items: seq<A>, n: nat): (own: seq<A>)
    requires n <= |reqs| == |items|
  {
    if n == 0 then []
    else Own(token, reqs, items, n - 1) + if reqs[n - 1].token == token then [items[n - 1]] else []
  }

  /** The states at the start and after each of the first n requests with the token. */
  function OwnStates(token: Token, reqs: seq<Request>, states: seq<Secrets>, n: nat): (own: seq<Secrets>)
    requires n <= |reqs| < |states|
    ensures own != []
  {
    if n == 0 then [states[0]]
    else OwnStates(token, reqs, states, n - 1) + if reqs[n - 1].token == token then [states[n]] else []
  }

  lemma StrangerChangesNothing(token: Token, states: seq<Secrets>, reqs: seq<Request>, resps: seq<Response>, i: nat)
    requires Run(token, states, reqs, resps) && i < |reqs| && reqs[i].token != token
    ensures states[i + 1] == states[i] && resps[i] == Error(InvalidToken)
  {
    assert Answers(token, states[i], reqs[i], resps[i]);
  }

  /** To the vault, requests without the token may as well not be made: they change nothing in it, their
      answer is always the same, and what is left without them is a run with the same states and the
      same answers. */
  lemma {:induction false} StrangersLearnNothing(token: Token, states: seq<Secrets>, reqs: seq<Request>, resps: seq<Response>, n: nat)
    requires Run(token, states, reqs, resps) && n <= |reqs|
    ensures var own := OwnStates(token, reqs, states, n);
      && Run(token, own, Own(token, reqs, reqs, n), Own(token, reqs, resps, n))
      && own[|own| - 1] == states[n]
    ensures forall i :: 0 <= i < n && reqs[i].token != token ==> states[i + 1] == states[i] && resps[i] == Error(InvalidToken)
  {
    if n > 0 {
      StrangersLearnNothing(token, states, reqs, resps, n - 1);
      var own, ownReqs, ownResps := OwnStates(token, reqs, states, n - 1), Own(token, reqs, reqs, n - 1), Own(token, reqs, resps, n - 1);
      if reqs[n - 1].token == token {
        RunExtends(token, own, ownReqs, ownResps, reqs[n - 1], resps[n - 1], states[n]);
      } else {
        StrangerChangesNothing(token, states, reqs, resps, n - 1);
        assert own + [] == own && ownReqs + [] == ownReqs && ownResps + [] == ownResps;
      }
    }
  }
}

/** The manager that owns the vault while it is unlocked. */
module Manager {
  import opened LocalStore

  class SecretManager {
    var vault: Store?

    constructor (vault: Store?)
      ensures this.vault == vault
    {
      this.vault := vault;
    }

    /** Closes the vault; its file is not touched. */
    method Lock()
      modifies this
      ensures vault == null
    {
      vault := null;
    }
  }
}

/** The serve loop of the agent. */
module Agent {
  import opened Common
  import opened Utf8
  import opened SecretName
  import opened LocalStore
  import opened VaultFile
  import opened AgentProtocol
  import opened Manager
  import S = Session

  /** What an accepted connection delivers. */
  datatype Connection = AcceptError | Malformed | Frame(req: Request)

  /** Byte-wise comparison after a length check. */
  method TokenEq(expected: Token, presented: Token) returns (eq: bool)
    ensures eq <==> expected == presented
  {
    if |expected| != |presented| {
      return false;
    }
    var diff := false;
    for i := 0 to |expected|
      invariant diff <==> expected[..i] != presented[..i]
    {
      assert expected[..i + 1] == expected[..i] + [expected[i]];
      assert presented[..i + 1] == presented[..i] + [presented[i]];
      diff := diff || expected[i] != presented[i];
    }
    assert expected[..|expected|] == expected && presented[..|expected|] == presented;
    eq := !diff;
  }

  /** What a run of the agent leaves behind: the run over the map, and its traces on the disk. */
  datatype Trace = Trace(
    states: seq<Secrets>, reqs: seq<Request>, resps: seq<Response>, moments: seq<S.Moment>, saved: seq<bool>)

  /** Every response answers as the map does, the map is what the vault in memory decrypts to, and
      exactly the acknowledged puts reach the disk. */
  ghost predicate Served(lib: Library, key: Key, token: Token, t: Trace) {
    && Run(token, t.states, t.reqs, t.resps) && S.LogRun(t.moments, t.saved)
    && |t.saved| == |t.reqs|
    && (forall i :: 0 <= i < |t.saved| ==> t.saved[i] == Acknowledged(token, t.reqs[i], t.resps[i]))
    && forall i :: 0 <= i < |t.states| ==> t.states[i] == SecretsOf(lib, key, t.moments[i].entries)
  }

  ghost function Here(store: Store): (Secrets, S.Moment)
    reads store
  {
    (store.Secrets(), S.Now(store))
  }

  function First(t: Trace): (Secrets, S.Moment)
    requires t.states != [] && t.moments != []
  {
    (t.states[0], t.moments[0])
  }

  function Last(t: Trace): (Secrets, S.Moment)
    requires t.states != [] && t.moments != []
  {
    (t.states[|t.states| - 1], t.moments[|t.moments| - 1])
  }

  function Grown(token: Token, t: Trace, req: Request, resp: Response, here: (Secrets, S.Moment)): Trace {
    Trace(t.states + [here.0], t.reqs + [req], t.resps + [resp], t.moments + [here.1],
          t.saved + [Acknowledged(token, req, resp)])
  }

  lemma TraceGrows(lib: Library, key: Key, token: Token, t: Trace, req: Request, resp: Response, here: (Secrets, S.Moment))
    requires Served(lib, key, token, t) && here.0 == SecretsOf(lib, key, here.1.entries)
    requires Answers(token, Last(t).0, req, resp) && here.0 == After(token, Last(t).0, req, resp)
    requires S.Traced(Last(t).1, here.1, Acknowledged(token, req, resp))
    ensures Served(lib, key, token, Grown(token, t, req, resp, here))
  {
    RunExtends(token, t.states, t.reqs, t.resps, req, resp, here.0);
    S.LogRunGrows(t.moments, t.saved, here.1, Acknowledged(token, req, resp));
  }

  class Agent {
    const manager: SecretManager
    const token: Token
    const idle: nat
    var touches: nat  // how often the activity clock has been touched

    constructor (manager: SecretManager, token: Token, idle: nat)
      ensures this.manager == manager && this.token == token && this.idle == idle && touches == 1
    {
      this.manager := manager;
      this.token := token;
      this.idle := idle;
      this.touches := 1;
    }

    /** Answers one request; `clockIdle` is what the activity clock reads. */
    method Handle(store: Store, req: Request, clockIdle: nat) returns (resp: Response, signout: bool)
      requires store.Valid() && manager.vault == store
      modifies store`entries, store`log, store.disk
      ensures store.Valid() && store.born == old(store.born)
      ensures S.Traced(old(S.Now(store)), S.Now(store), Acknowledged(token, req, resp))
      ensures Answers(token, old(store.Secrets()), req, resp)
      ensures store.Secrets() == After(token, old(store.Secrets()), req, resp)
      ensures signout <==> req.Signout? && req.token == token
      ensures req.token != token || !req.Put? ==> store.entries == old(store.entries) && store.disk.history == old(store.disk.history)
      ensures resp.StatusOf? ==> resp.idleSecsRemaining == (if clockIdle < idle then idle - clockIdle else 0) / 1000
    {
      signout := false;
      var authentic := TokenEq(token, req.token);
      if !authentic {
        return Error(InvalidToken), false;
      }
      match req
      case Get(_, name) =>
        var r := store.GetSecret(name);
        resp := if r.Ok? then Secret(r.value) else Error(Failed(r.error));
      case Put(_, name, value) =>
        var r := store.PutSecret(name, value);
        resp := if r.Ok? then Done else Error(Failed(r.error));
      case List(_) =>
        var names := store.Names();
        resp := Names(names);
      case Status(_) =>
        var remaining := if clockIdle < idle then idle - clockIdle else 0;
        resp := StatusOf(manager.vault != null, remaining / 1000);
      case Signout(_) =>
        resp, signout := Done, true;
    }

    /** Handles a request, extending the trace. */
    method Respond(store: Store, req: Request, clockIdle: nat, ghost trace: Trace)
      returns (resp: Response, signout: bool, ghost grown: Trace)
      requires store.Valid() && manager.vault == store
      requires Served(store.lib, store.masterKey, token, trace) && Last(trace) == Here(store)
      modifies store`entries, store`log, store.disk
      ensures store.Valid() && signout == SignsOut(req)
      ensures Served(store.lib, store.masterKey, token, grown) && First(grown) == First(trace) && Last(grown) == Here(store)
      ensures grown.reqs == trace.reqs + [req] && grown.resps == trace.resps + [resp]
    {
      resp, signout := Handle(store, req, clockIdle);
      TraceGrows(store.lib, store.masterKey, token, trace, req, resp, Here(store));
      grown := Grown(token, trace, req, resp, Here(store));
    }

    /** Takes one connection: it touches the clock when it is accepted, and is answered when it carries
        a request. */
    method Take(store: Store, conn: Connection, ghost trace: Trace)
      returns (resp: Option<Response>, signout: bool, ghost grown: Trace)
      requires store.Valid() && manager.vault == store
      requires Served(store.lib, store.masterKey, token, trace) && Last(trace) == Here(store)
      modifies this`touches, store`entries, store`log, store.disk
      ensures store.Valid() && signout == (conn.Frame? && SignsOut(conn.req))
      ensures Served(store.lib, store.masterKey, token, grown) && First(grown) == First(trace) && Last(grown) == Here(store)
      ensures grown.reqs == trace.reqs + (if conn.Frame? then [conn.req] else [])
      ensures grown.resps == trace.resps + (if resp.Some? then [resp.value] else [])
      ensures touches == old(touches) + if conn.AcceptError? then 0 else 1
    {
      resp, signout, grown := None, false, trace;
      assert trace.reqs + [] == trace.reqs && trace.resps + [] == trace.resps;
      if conn.AcceptError? {
        return;
      }
      touches := touches + 1;
      if conn.Malformed? {
        return;
      }
      var clockIdle: nat := *;
      var answer;
      answer, signout, grown := Respond(store, conn.req, clockIdle, trace);
      resp := Some(answer);
    }

    /** Serves connections in turn. Every run answers like the map; a valid sign-out locks the vault
        and ends service, and nothing before it does. Each accepted connection touches the clock.
        The disk shows only what the trace accounts for, wherever the process is ended. */
    method Serve(store: Store, connections: seq<Connection>)
      returns (resps: seq<Response>, served: nat, ghost trace: Trace)
      requires store.Valid() && manager.vault == store
      modifies this`touches, manager, store`entries, store`log, store.disk
      ensures store.Valid() && store.born == old(store.born)
      ensures Served(store.lib, store.masterKey, token, trace) && trace.resps == resps
      ensures First(trace) == old(Here(store)) && Last(trace) == Here(store)
      ensures served <= |connections| && trace.reqs == Frames(connections[..served])
      ensures served < |connections| ==> manager.vault == null
      ensures manager.vault == null <==> trace.reqs != [] && SignsOut(trace.reqs[|trace.reqs| - 1])
      ensures forall i :: 0 <= i < |trace.reqs| - 1 ==> !SignsOut(trace.reqs[i])
      ensures manager.vault == null || manager.vault == store
      ensures touches == old(touches) + Accepted(connections[..served])
    {
      resps, served, trace := [], 0, Trace([store.Secrets()], [], [], [S.Now(store)], []);
      while served < |connections|
        invariant served <= |connections|
        invariant store.Valid() && manager.vault == store && store.born == old(store.born)
        invariant Served(store.lib, store.masterKey, token, trace) && trace.resps == resps
        invariant First(trace) == old(Here(store)) && Last(trace) == Here(store)
        invariant trace.reqs == Frames(connections[..served])
        invariant forall i :: 0 <= i < |trace.reqs| ==> !SignsOut(trace.reqs[i])
        invariant touches == old(touches) + Accepted(connections[..served])
      {
        var conn := connections[served];
        assert connections[..served + 1][..served] == connections[..served];
        served := served + 1;
        var resp, signout;
        resp, signout, trace := Take(store, conn, trace);
        resps := resps + if resp.Some? then [resp.value] else [];
        if signout {
          manager.Lock();
          return;
        }
      }
    }

    predicate SignsOut(req: Request) {
      req.Signout? && req.token == token
    }
  }

  // ----- ending the process in the middle

  /** What the file holds before request k: the map in memory after the last acknowledged put before
      it, or what it held at the start when there is none. */
  lemma {:induction false} HeldSince(moments: seq<S.Moment>, saved: seq<bool>, k: nat) returns (a: nat)
    requires S.LogRun(moments, saved) && k <= |saved|
    ensures a <= k && (a > 0 ==> saved[a - 1]) && forall x :: a <= x < k ==> !saved[x]
    ensures moments[0].log != [] && moments[k].log != []
    ensures S.CommittedAt(moments[k]) == if a == 0 then S.CommittedAt(moments[0]) else moments[a].entries
  {
    a := k;
    if k > 0 {
      S.CommittedNext(moments, saved, k - 1);
      if !saved[k - 1] {
        a := HeldSince(moments, saved, k - 1);
      }
    }
  }

  /** The same for an image shown while request k was served, which itself counts once it is complete. */
  lemma ShownSince(moments: seq<S.Moment>, saved: seq<bool>, i: nat, k: nat, m: Entries) returns (a: nat)
    requires S.LogRun(moments, saved) && S.ShownDuring(moments, saved, i, k, m)
    ensures a <= k + 1 && (a > 0 ==> saved[a - 1]) && forall x :: a <= x < k ==> !saved[x]
    ensures moments[0].log != [] && m == if a == 0 then S.CommittedAt(moments[0]) else moments[a].entries
  {
    if saved[k] && i == |moments[k + 1].log| - 1 {
      a := k + 1;
    } else {
      a := HeldSince(moments, saved, k);
    }
  }

  /** The vault file of image i is there, and opens unless it is past the length limit. */
  ghost predicate Reopens(store: Store, passphrase: seq<u8>, hardwareKey: Option<seq<u8>>, i: nat)
    requires i < |store.disk.history|
    reads store.disk
  {
    var image := store.disk.history[i];
    store.path in image && (S.OpenPath(store.lib, image, store.path, passphrase, hardwareKey).Ok? <==> |image[store.path]| <= MAX_VAULT_LEN)
  }

  /** Whenever the process is ended, by the watchdog or a crash, even inside a save, the vault reopens
      to the very map that the agent had in memory after some request: the last acknowledged put up
      to the interrupted request k, which itself counts once its rename is complete. Before the
      first acknowledged put it is what the file held at the start. */
  lemma ExitRecovers(store: Store, token: Token, t: Trace, passphrase: seq<u8>, hardwareKey: Option<seq<u8>>, i: nat)
    returns (k: nat, a: nat)
    requires store.Valid() && Served(store.lib, store.masterKey, token, t) && Last(t) == Here(store)
    requires store.born < |t.moments[0].log| <= i < |store.log|
    requires store.lib.derive(passphrase, store.header, hardwareKey) == Some(store.masterKey)
    ensures a <= k + 1 <= |t.reqs| && forall x :: a <= x < k ==> !Acknowledged(token, t.reqs[x], t.resps[x])
    ensures a > 0 ==> Acknowledged(token, t.reqs[a - 1], t.resps[a - 1])
    ensures Reopens(store, passphrase, hardwareKey, i)
    ensures var r := S.OpenPath(store.lib, store.disk.history[i], store.path, passphrase, hardwareKey);
      && (r.Ok? && a == 0 ==> r.value.entries == S.CommittedAt(t.moments[0]))
      && (r.Ok? && a > 0 ==> SecretsOf(store.lib, store.masterKey, r.value.entries) == t.states[a])
  {
    k := S.CrashDuringRun(store, t.moments, t.saved, passphrase, hardwareKey, i);
    a := ShownSince(t.moments, t.saved, i, k, store.log[i]);
  }

  /** While saves succeed that is the plain map of the acknowledged puts, up to the interrupted
      request or just before it. */
  lemma ExitRecoversReplay(store: Store, token: Token, t: Trace, passphrase: seq<u8>, hardwareKey: Option<seq<u8>>, i: nat)
    returns (k: nat)
    requires store.Valid() && Served(store.lib, store.masterKey, token, t) && Last(t) == Here(store)
    requires store.born < |t.moments[0].log| <= i < |store.log|
    requires store.lib.derive(passphrase, store.header, hardwareKey) == Some(store.masterKey)
    requires S.CommittedAt(t.moments[0]) == t.moments[0].entries
    requires forall x :: 0 <= x < |t.reqs| && Effective(token, t.reqs[x], t.resps[x]) ==> Acknowledged(token, t.reqs[x], t.resps[x])
    ensures k < |t.reqs| && Reopens(store, passphrase, hardwareKey, i)
    ensures var r := S.OpenPath(store.lib, store.disk.history[i], store.path, passphrase, hardwareKey);
      r.Err? || SecretsOf(store.lib, store.masterKey, r.value.entries)
        in {Replay(token, t.states[0], t.reqs, t.resps, k), Replay(token, t.states[0], t.reqs, t.resps, k + 1)}
  {
    var a;
    k, a := ExitRecovers(store, token, t, passphrase, hardwareKey, i);
    RefinesMap(token, t.states, t.reqs, t.resps, a);
    if a <= k {
      QuietReplay(token, t.states[0], t.reqs, t.resps, a, k);
    }
  }

  lemma {:induction false} QuietReplay(token: Token, s: Secrets, reqs: seq<Request>, resps: seq<Response>, a: nat, k: nat)
    requires a <= k <= |reqs| == |resps|
    requires forall x :: a <= x < k ==> !Acknowledged(token, reqs[x], resps[x])
    ensures Replay(token, s, reqs, resps, k) == Replay(token, s, reqs, resps, a)
  {
    if a < k {
      QuietReplay(token, s, reqs, resps, a, k - 1);
    }
  }

  // ----- connections

  function Frames(connections: seq<Connection>): seq<Request> {
    if connections == [] then []
    else
      var front := Frames(connections[..|connections| - 1]);
      var last := connections[|connections| - 1];
      if last.Frame? then front + [last.req] else front
  }

  function Accepted(connections: seq<Connection>): nat {
    if connections == [] then 0
    else Accepted(connections[..|connections| - 1]) + if connections[|connections| - 1].AcceptError? then 0 else 1
  }

  /** Every request that arrives is served, in order, and nothing else is. */
  lemma {:induction false} FramesInOrder(before: seq<Connection>, after: seq<Connection>)
    ensures Frames(before + after) == Frames(before) + Frames(after)
    decreases |after|
  {
    if after == [] {
      assert before + after == before;
    } else {
      assert (before + after)[..|before + after| - 1] == before + after[..|after| - 1];
      FramesInOrder(before, after[..|after| - 1]);
    }
  }

  lemma FrameOf(conn: Connection)
    ensures Frames([conn]) == if conn.Frame? then [conn.req] else []
  {
    assert [conn][..0] == [];
  }

  /** The clock is touched before a token is read: what keeps the agent alive is the number of accepted
      connections, whoever makes them and whatever they ask. */
  lemma {:induction false} TouchesIgnoreTokens(connections: seq<Connection>, others: seq<Connection>)
    requires |connections| == |others|
    requires forall i :: 0 <= i < |connections| ==> (connections[i].AcceptError? <==> others[i].AcceptError?)
    ensures Accepted(connections) == Accepted(others)
    decreases |connections|
  {
    if connections != [] {
      TouchesIgnoreTokens(connections[..|connections| - 1], others[..|others| - 1]);
    }
  }
}
