/**
 The agent's request handling: the blob index, the identities answer, the sign path with its audit
 row, the per-connection loop and the accept loop.

 The vault, the audit store and the peers are the environment: `Environment` fixes, for the t-th
 request served, what each of them does.
 */
module AgentServer {
  import opened Prelude
  import opened SshWire
  import opened Signer
  import opened Identity
  import IdleTimer

  const AGENT_FAILURE: byte := 5
  const REQUEST_IDENTITIES: byte := 11
  const IDENTITIES_ANSWER: byte := 12
  const SIGN_REQUEST: byte := 13
  const SIGN_RESPONSE: byte := 14

  /** The private half of a record: `None` is a field that cannot be decrypted. */
  datatype StoredKey = StoredKey(pem: Option<Pem>, passphrase: Option<string>)

  datatype Environment = Environment(
    prims: Primitives,
    keyOf: (nat, nat) -> StoredKey,     // (request number, record id)
    auditAccepts: nat -> bool)          // request number

  datatype AuditRow = AuditRow(recordId: nat, name: Option<seq<byte>>, detail: string)

  type Index = map<seq<byte>, (nat, SshAlgo)>

  /** Collecting (blob, (id, algo)) pairs into a map: a later pair replaces an earlier one. */
  function BlobIndex(identities: seq<LoadedIdentity>): Index {
    if identities == [] then map[]
    else
      var last := identities[|identities| - 1];
      BlobIndex(identities[..|identities| - 1])[last.publicBlob := (last.recordId, last.algo)]
  }

  predicate IsLastWith(identities: seq<LoadedIdentity>, k: nat, blob: seq<byte>) {
    k < |identities| && identities[k].publicBlob == blob &&
    forall j :: k < j < |identities| ==> identities[j].publicBlob != blob
  }

  /** The index has the advertised blobs as keys and maps each to the last identity carrying it. */
  lemma {:induction false} IndexHoldsLast(identities: seq<LoadedIdentity>)
    ensures forall blob :: blob in BlobIndex(identities) <==> exists k: nat :: IsLastWith(identities, k, blob)
    ensures forall blob, k: nat :: IsLastWith(identities, k, blob) ==>
              blob in BlobIndex(identities)
                && BlobIndex(identities)[blob] == (identities[k].recordId, identities[k].algo)
  {
    if identities != [] {
      var n := |identities| - 1;
      var front := identities[..n];
      IndexHoldsLast(front);
      forall blob ensures blob in BlobIndex(identities) <==> exists k: nat :: IsLastWith(identities, k, blob) {
        if blob == identities[n].publicBlob {
          assert IsLastWith(identities, n, blob);
        } else {
          assert forall k: nat :: IsLastWith(front, k, blob) ==> IsLastWith(identities, k, blob);
          assert forall k: nat :: IsLastWith(identities, k, blob) ==> IsLastWith(front, k, blob);
        }
      }
      forall blob, k: nat | IsLastWith(identities, k, blob)
        ensures blob in BlobIndex(identities)
          && BlobIndex(identities)[blob] == (identities[k].recordId, identities[k].algo)
      {
        if k < n { assert IsLastWith(front, k, blob); }
      }
    }
  }

  // ---------------------------------------------------------------------------
  // REQUEST_IDENTITIES
  // ---------------------------------------------------------------------------

  function IdentityEntries(identities: seq<LoadedIdentity>): seq<byte> {
    if identities == [] then []
    else EncodeString(identities[0].publicBlob) + EncodeString(identities[0].name) + IdentityEntries(identities[1..])
  }

  function IdentitiesAnswer(identities: seq<LoadedIdentity>): seq<byte> {
    [IDENTITIES_ANSWER] + U32Bytes(|identities|) + IdentityEntries(identities)
  }

  method AnswerIdentities(identities: seq<LoadedIdentity>) returns (out: seq<byte>)
    ensures out == IdentitiesAnswer(identities)
  {
    out := [IDENTITIES_ANSWER];
    out := out + U32Bytes(|identities|);
    for i := 0 to |identities|
      invariant IdentitiesAnswer(identities) == out + IdentityEntries(identities[i..])
    {
      assert identities[i..][1..] == identities[i + 1..];
      out := out + EncodeString(identities[i].publicBlob);
      out := out + EncodeString(identities[i].name);
    }
    assert out + [] == out;
  }

  /** How a client reads `count` (blob, comment) pairs, leaving nothing behind. */
  function DecodeEntries(count: nat, input: seq<byte>): Option<seq<(seq<byte>, seq<byte>)>> {
    if count == 0 then (if input == [] then Some([]) else None)
    else
      var blob := ReadString(input);
      if blob.None? then None
      else
        var comment := ReadString(blob.value.1);
        if comment.None? then None
        else
          var rest := DecodeEntries(count - 1, comment.value.1);
          if rest.None? then None else Some([(blob.value.0, comment.value.0)] + rest.value)
  }

  function DecodeAnswer(answer: seq<byte>): Option<seq<(seq<byte>, seq<byte>)>> {
    if |answer| < 5 || answer[0] != IDENTITIES_ANSWER then None
    else DecodeEntries(U32At(answer[1..]), answer[5..])
  }

  function BlobsAndNames(identities: seq<LoadedIdentity>): seq<(seq<byte>, seq<byte>)> {
    seq(|identities|, i requires 0 <= i < |identities| => (identities[i].publicBlob, identities[i].name))
  }

  predicate FieldsFit(identities: seq<LoadedIdentity>) {
    forall i | i in identities :: |i.publicBlob| < TWO32 && |i.name| < TWO32
  }

  lemma {:induction false} EntriesDecode(identities: seq<LoadedIdentity>)
    requires FieldsFit(identities)
    ensures DecodeEntries(|identities|, IdentityEntries(identities)) == Some(BlobsAndNames(identities))
  {
    hide U32Bytes, U32At, EncodeString, ReadString;
    if identities == [] {
      assert BlobsAndNames(identities) == [];
    } else {
      var first, rest := identities[0], identities[1..];
      var tail := EncodeString(first.name) + IdentityEntries(rest);
      assert IdentityEntries(identities) == EncodeString(first.publicBlob) + tail;
      StringRoundTripIff(first.publicBlob, tail);
      StringRoundTripIff(first.name, IdentityEntries(rest));
      EntriesDecode(rest);
      assert BlobsAndNames(identities) == [(first.publicBlob, first.name)] + BlobsAndNames(rest);
    }
  }

  /** Decoding the identities answer gives back every (blob, name) pair, in order, and nothing more. */
  lemma AnswerDecodes(identities: seq<LoadedIdentity>)
    requires FieldsFit(identities) && |identities| < TWO32
    ensures DecodeAnswer(IdentitiesAnswer(identities)) == Some(BlobsAndNames(identities))
  {
    hide U32Bytes, U32At, IdentityEntries, DecodeEntries, BlobsAndNames;
    var answer := IdentitiesAnswer(identities);
    assert answer[1..] == U32Bytes(|identities|) + IdentityEntries(identities);
    U32Decodes(|identities|, IdentityEntries(identities));
    assert answer[5..] == IdentityEntries(identities);
    EntriesDecode(identities);
  }

  // ---------------------------------------------------------------------------
  // SIGN_REQUEST
  // ---------------------------------------------------------------------------

  datatype SignRequest = SignRequest(blob: seq<byte>, data: seq<byte>, flags: nat)

  /** The body of a sign request; bytes after the flags are ignored. */
  function ParseSignRequest(body: seq<byte>): Option<SignRequest> {
    var blob := ReadString(body);
    if blob.None? then None
    else
      var data := ReadString(blob.value.1);
      if data.None? || |data.value.1| < 4 then None
      else Some(SignRequest(blob.value.0, data.value.0, U32At(data.value.1)))
  }

  function BuildSignRequest(r: SignRequest): seq<byte> {
    EncodeString(r.blob) + EncodeString(r.data) + U32Bytes(r.flags)
  }

  predicate RequestFits(r: SignRequest) {
    |r.blob| < TWO32 && |r.data| < TWO32 && r.flags < TWO32
  }

  lemma BuiltRequestParses(r: SignRequest, tail: seq<byte>)
    requires RequestFits(r)
    ensures ParseSignRequest(BuildSignRequest(r) + tail) == Some(r)
  {
    hide U32Bytes, U32At, EncodeString, ReadString;
    var rest := U32Bytes(r.flags) + tail;
    var body := BuildSignRequest(r) + tail;
    assert body == EncodeString(r.blob) + (EncodeString(r.data) + rest);
    StringRoundTripIff(r.blob, EncodeString(r.data) + rest);
    StringRoundTripIff(r.data, rest);
    U32Decodes(r.flags, tail);
  }

  /** A body parses to a request exactly when it is that request's encoding with some tail. */
  lemma ParsedRequestIsBuilt(body: seq<byte>, r: SignRequest)
    ensures ParseSignRequest(body) == Some(r) <==>
            RequestFits(r) && exists tail :: body == BuildSignRequest(r) + tail
  {
    hide U32Bytes, U32At, EncodeString, ReadString;
    if ParseSignRequest(body) == Some(r) {
      StringParseIsEncoding(body);
      var afterBlob := ReadString(body).value.1;
      StringParseIsEncoding(afterBlob);
      var afterData := ReadString(afterBlob).value.1;
      U32Encodes(afterData);
      assert afterData == U32Bytes(r.flags) + afterData[4..];
      assert body == BuildSignRequest(r) + afterData[4..];
    } else if RequestFits(r) {
      forall tail | body == BuildSignRequest(r) + tail ensures false {
        BuiltRequestParses(r, tail);
      }
    }
  }

  function FlagsOf(flags: nat): SignFlags {
    SignFlags(flags / 2 % 2 == 1, flags / 4 % 2 == 1)
  }

  /** The passphrase handed to the signer: a missing, unreadable or empty one counts as none. */
  function UsablePassphrase(key: StoredKey): Option<string> {
    if key.passphrase == Some("") then None else key.passphrase
  }

  /** A sign request that succeeded: which record signed, with what, and the signature blob. */
  datatype Signature = Signature(recordId: nat, algo: SshAlgo, flags: SignFlags, blob: seq<byte>)

  ghost function Signed(env: Environment, index: Index, t: nat, request: seq<byte>): Option<Signature> {
    if request == [] || request[0] != SIGN_REQUEST then None
    else match ParseSignRequest(request[1..])
      case None => None
      case Some(r) =>
        if r.blob !in index then None
        else
          var (id, algo) := index[r.blob];
          var key := env.keyOf(t, id);
          if key.pem.None? then None
          else match Sign(env.prims, algo, key.pem.value, UsablePassphrase(key), r.data, FlagsOf(r.flags))
            case Err(_) => None
            case Ok(blob) => Some(Signature(id, algo, FlagsOf(r.flags), blob))
  }

  ghost function Reply(env: Environment, identities: seq<LoadedIdentity>, index: Index, t: nat,
                       request: seq<byte>): seq<byte>
  {
    if request != [] && request[0] == REQUEST_IDENTITIES then IdentitiesAnswer(identities)
    else match Signed(env, index, t, request)
      case None => [AGENT_FAILURE]
      case Some(signature) => [SIGN_RESPONSE] + EncodeString(signature.blob)
  }

  function NameOf(identities: seq<LoadedIdentity>, id: nat): Option<seq<byte>> {
    if identities == [] then None
    else if identities[0].recordId == id then Some(identities[0].name)
    else NameOf(identities[1..], id)
  }

  ghost function AuditRows(env: Environment, identities: seq<LoadedIdentity>, index: Index, t: nat, request: seq<byte>)
    : seq<AuditRow>
  {
    match Signed(env, index, t, request)
    case None => []
    case Some(s) =>
      if env.auditAccepts(t) then [AuditRow(s.recordId, NameOf(identities, s.recordId), WireName(s.algo, s.flags))]
      else []
  }

  /** Everything a batch of requests leaves behind, starting with request number `t`. */
  ghost function Replies(env: Environment, identities: seq<LoadedIdentity>, index: Index, t: nat,
                         requests: seq<seq<byte>>)
    : seq<seq<byte>>
  {
    seq(|requests|, i requires 0 <= i < |requests| => Reply(env, identities, index, t + i, requests[i]))
  }

  ghost function AuditTrail(env: Environment, identities: seq<LoadedIdentity>, index: Index, t: nat,
                            requests: seq<seq<byte>>)
    : seq<AuditRow>
  {
    if requests == [] then []
    else
      var n := |requests| - 1;
      AuditTrail(env, identities, index, t, requests[..n]) + AuditRows(env, identities, index, t + n, requests[n])
  }

  /** The reply stream of a batch: each reply in its frame. */
  ghost function ReplyBytes(env: Environment, identities: seq<LoadedIdentity>, index: Index, t: nat,
                            requests: seq<seq<byte>>)
    : seq<byte>
  {
    Framed(Replies(env, identities, index, t, requests))
  }

  lemma {:induction false} AuditTrailAppends(env: Environment, identities: seq<LoadedIdentity>, index: Index, t: nat,
                                             a: seq<seq<byte>>, b: seq<seq<byte>>)
    ensures AuditTrail(env, identities, index, t, a + b)
         == AuditTrail(env, identities, index, t, a) + AuditTrail(env, identities, index, t + |a|, b)
  {
    hide AuditRows;
    if b == [] {
      assert a + b == a;
    } else {
      var n := |b| - 1;
      assert (a + b)[..|a| + n] == a + b[..n];
      AuditTrailAppends(env, identities, index, t, a, b[..n]);
    }
  }

  /** How many of the requests are answered by a signature. */
  ghost function SignCount(env: Environment, index: Index, t: nat, requests: seq<seq<byte>>): nat {
    if requests == [] then 0
    else
      var n := |requests| - 1;
      SignCount(env, index, t, requests[..n]) + if Signed(env, index, t + n, requests[n]).Some? then 1 else 0
  }

  /** Tokens queued after `n` attempts to send one: a full channel drops the rest. */
  function Queued(activity: nat, n: nat): nat {
    if activity >= IdleTimer.SLOTS then activity else Min(activity + n, IdleTimer.SLOTS)
  }

  lemma QueuedInTurn(activity: nat, m: nat, n: nat)
    ensures Queued(Queued(activity, m), n) == Queued(activity, m + n) && Queued(activity, 0) == activity
  {
  }

  lemma {:induction false} SignCountAppends(env: Environment, index: Index, t: nat, a: seq<seq<byte>>,
                                            b: seq<seq<byte>>)
    ensures SignCount(env, index, t, a + b) == SignCount(env, index, t, a) + SignCount(env, index, t + |a|, b)
  {
    hide Signed;
    if b == [] {
      assert a + b == a;
    } else {
      var n := |b| - 1;
      assert (a + b)[..|a| + n] == a + b[..n];
      SignCountAppends(env, index, t, a, b[..n]);
    }
  }

  function Min(a: nat, b: nat): nat { if a < b then a else b }

  /**
   One client: the bytes it sends before closing, how many replies it accepts, and how many bytes of
   the next reply get through before its write fails.
   */
  datatype Peer = Peer(input: seq<byte>, acceptsReplies: nat, acceptsBytes: nat)

  /** The requests of a peer that are dispatched: one more than it accepts replies for, at most. */
  function Dispatched(peer: Peer): seq<seq<byte>> {
    var requests := Requests(peer.input);
    requests[..Min(|requests|, peer.acceptsReplies + 1)]
  }

  /** The requests whose replies reach the peer. */
  function Answered(peer: Peer): seq<seq<byte>> {
    var requests := Requests(peer.input);
    requests[..Min(|requests|, peer.acceptsReplies)]
  }

  /** What reaches the peer of the reply whose write fails, if one does. */
  ghost function CutReply(env: Environment, identities: seq<LoadedIdentity>, index: Index, t: nat,
                          peer: Peer): seq<byte>
  {
    var requests, n := Requests(peer.input), peer.acceptsReplies;
    if |requests| <= n then []
    else
      var frame := WriteFrame(Reply(env, identities, index, t + n, requests[n]));
      frame[..Min(peer.acceptsBytes, |frame|)]
  }

  /** All that reaches the peer. */
  ghost function Received(env: Environment, identities: seq<LoadedIdentity>, index: Index, t: nat,
                          peer: Peer): seq<byte>
  {
    ReplyBytes(env, identities, index, t, Answered(peer)) + CutReply(env, identities, index, t, peer)
  }

  function DispatchedByAll(peers: seq<Peer>): seq<seq<byte>> {
    if peers == [] then [] else DispatchedByAll(peers[..|peers| - 1]) + Dispatched(peers[|peers| - 1])
  }

  class Server {
    const env: Environment
    const identities: seq<LoadedIdentity>
    const index: Index
    var audit: seq<AuditRow>
    /** Idle-timer tokens queued in the bounded channel. */
    var activity: nat
    /** Requests dispatched so far. */
    var served: nat

    constructor (env: Environment, identities: seq<LoadedIdentity>)
      ensures this.env == env && this.identities == identities && index == BlobIndex(identities)
      ensures audit == [] && activity == 0 && served == 0
    {
      this.env, this.identities, this.index := env, identities, BlobIndex(identities);
      audit, activity, served := [], 0, 0;
    }

    method HandleSign(body: seq<byte>) returns (response: seq<byte>)
      modifies this`audit
      ensures response == Reply(env, identities, index, served, [SIGN_REQUEST] + body)
      ensures audit == old(audit) + AuditRows(env, identities, index, served, [SIGN_REQUEST] + body)
    {
      ghost var request := [SIGN_REQUEST] + body;
      assert request[1..] == body;
      var first := ReadString(body);
      if first.None? {
        return [AGENT_FAILURE];
      }
      var (keyBlob, rest) := first.value;
      var second := ReadString(rest);
      if second.None? {
        return [AGENT_FAILURE];
      }
      var (data, rest') := second.value;
      if |rest'| < 4 {
        return [AGENT_FAILURE];
      }
      var flags := FlagsOf(U32At(rest'));
      if keyBlob !in index {
        return [AGENT_FAILURE];
      }
      var (recordId, algo) := index[keyBlob];
      var key := env.keyOf(served, recordId);
      if key.pem.None? {
        return [AGENT_FAILURE];
      }
      var signature := Sign(env.prims, algo, key.pem.value, UsablePassphrase(key), data, flags);
      if signature.Err? {
        return [AGENT_FAILURE];
      }
      var row := AuditRow(recordId, NameOf(identities, recordId), WireName(algo, flags));
      if env.auditAccepts(served) {
        audit := audit + [row];
      }
      response := [SIGN_RESPONSE] + EncodeString(signature.value);
    }

    method Dispatch(request: seq<byte>) returns (response: seq<byte>)
      modifies this`audit, this`served
      ensures response == Reply(env, identities, index, old(served), request)
      ensures audit == old(audit) + AuditRows(env, identities, index, old(served), request)
      ensures served == old(served) + 1
    {
      if request == [] {
        response := [AGENT_FAILURE];
      } else if request[0] == REQUEST_IDENTITIES {
        response := AnswerIdentities(identities);
      } else if request[0] == SIGN_REQUEST {
        assert request == [SIGN_REQUEST] + request[1..];
        response := HandleSign(request[1..]);
      } else {
        response := [AGENT_FAILURE];
      }
      served := served + 1;
    }

    /**
     One connection, from its first frame to the end of its input or the first failed write: every
     complete frame up to there is dispatched once, in order, and its reply written back; of the reply
     whose write fails, some first bytes may get through.
     */
    method ServeConnection(peer: Peer) returns (written: seq<byte>)
      modifies this
      ensures served == old(served) + |Dispatched(peer)|
      ensures audit == old(audit) + AuditTrail(env, identities, index, old(served), Dispatched(peer))
      ensures written == Received(env, identities, index, old(served), peer)
      ensures activity == Queued(old(activity), SignCount(env, index, old(served), Dispatched(peer)))
    {
      hide AuditTrail, AuditRows, SignCount, ReplyBytes, Replies, Reply, Signed, ReadFrame, WriteFrame, U32At, U32Bytes;
      ghost var requests := Requests(peer.input);
      ghost var done: nat := 0;
      var input := peer.input;
      var replied: nat := 0;
      written := [];
      BatchOfNone(env, identities, index, served, requests);
      while true
        invariant done <= |requests| && done == replied <= peer.acceptsReplies
        invariant Requests(input) == requests[done..]
        invariant served == old(served) + done
        invariant audit == old(audit) + AuditTrail(env, identities, index, old(served), requests[..done])
        invariant written == ReplyBytes(env, identities, index, old(served), requests[..done])
        invariant activity == Queued(old(activity), SignCount(env, index, old(served), requests[..done]))
        decreases |input|
      {
        var frame := ReadFrame(input);
        if !frame.Frame? {
          assert requests[done..] == [];
          assert requests[..done] == requests;
          assert written + [] == written;
          break;
        }
        assert requests[done] == frame.payload && requests[done + 1..] == Requests(frame.rest);
        input := frame.rest;
        var response := Dispatch(frame.payload);
        BatchExtends(env, identities, index, old(served), requests, done);
        if response[0] == SIGN_RESPONSE {
          Notify();
        }
        if replied == peer.acceptsReplies {
          var frame := WriteFrame(response);
          written := written + frame[..Min(peer.acceptsBytes, |frame|)];
          break;
        }
        replied := replied + 1;
        written := written + WriteFrame(response);
        done := done + 1;
      }
    }

    /** `try_send`: a full channel drops the token. */
    method Notify()
      modifies this`activity
      ensures activity == IdleTimer.Push(old(activity))
    {
      if activity < IdleTimer.SLOTS {
        activity := activity + 1;
      }
    }

    /**
     The accept loop over the peers that connect before accepting fails. Whatever a peer sends, the
     next one is served in full; only the numbering of requests, the audit log and the tokens no
     timer has taken carry over.
     */
    method AcceptLoop(peers: seq<Peer>) returns (written: seq<seq<byte>>)
      modifies this
      ensures |written| == |peers|
      ensures forall k :: 0 <= k < |peers| ==>
                written[k] == Received(env, identities, index, old(served) + |DispatchedByAll(peers[..k])|, peers[k])
      ensures served == old(served) + |DispatchedByAll(peers)|
      ensures audit == old(audit) + AuditTrail(env, identities, index, old(served), DispatchedByAll(peers))
      ensures activity == Queued(old(activity), SignCount(env, index, old(served), DispatchedByAll(peers)))
    {
      hide AuditTrail, ReplyBytes, Received, Dispatched, DispatchedByAll, SignCount, Queued;
      written := [];
      DispatchedByNone(peers);
      BatchOfNone(env, identities, index, served, []);
      QueuedInTurn(activity, 0, 0);
      for k := 0 to |peers|
        invariant |written| == k
        invariant served == old(served) + |DispatchedByAll(peers[..k])|
        invariant audit == old(audit) + AuditTrail(env, identities, index, old(served), DispatchedByAll(peers[..k]))
        invariant activity == Queued(old(activity), SignCount(env, index, old(served), DispatchedByAll(peers[..k])))
        invariant forall i :: 0 <= i < k ==>
          written[i] == Received(env, identities, index, old(served) + |DispatchedByAll(peers[..i])|, peers[i])
      {
        var bytes := ServeConnection(peers[k]);
        DispatchedByOneMore(peers, k);
        AuditTrailAppends(env, identities, index, old(served), DispatchedByAll(peers[..k]), Dispatched(peers[k]));
        SignCountAppends(env, index, old(served), DispatchedByAll(peers[..k]), Dispatched(peers[k]));
        QueuedInTurn(old(activity), SignCount(env, index, old(served), DispatchedByAll(peers[..k])),
                     SignCount(env, index, old(served) + |DispatchedByAll(peers[..k])|, Dispatched(peers[k])));
        written := written + [bytes];
      }
      assert peers[..|peers|] == peers;
    }
  }

  /** `AgentServer::start`: load through the filter and index by blob, or report the load's error. */
  method Start(env: Environment, records: seq<VaultRecord>, filter: IdentityFilter)
    returns (result: Result<Server, IdentityError>)
    ensures match LoadResult(records, filter)
            case Err(error) => result == Err(error)
            case Ok(identities) =>
              && result.Ok? && fresh(result.value) && result.value.env == env
              && result.value.identities == identities && result.value.index == BlobIndex(identities)
              && result.value.audit == [] && result.value.activity == 0
  {
    var loaded := LoadSshIdentities(records, filter);
    if loaded.Err? {
      return Err(loaded.error);
    }
    var server := new Server(env, loaded.value);
    result := Ok(server);
  }

  lemma DispatchedByNone(peers: seq<Peer>)
    ensures DispatchedByAll(peers[..0]) == []
  {
  }

  lemma DispatchedByOneMore(peers: seq<Peer>, k: nat)
    requires k < |peers|
    ensures DispatchedByAll(peers[..k + 1]) == DispatchedByAll(peers[..k]) + Dispatched(peers[k])
  {
    hide Dispatched;
    assert peers[..k + 1][..k] == peers[..k];
  }

  lemma BatchOfNone(env: Environment, identities: seq<LoadedIdentity>, index: Index, t: nat, requests: seq<seq<byte>>)
    ensures AuditTrail(env, identities, index, t, requests[..0]) == []
    ensures ReplyBytes(env, identities, index, t, requests[..0]) == []
    ensures SignCount(env, index, t, requests[..0]) == 0
  {
  }

  lemma BatchExtends(env: Environment, identities: seq<LoadedIdentity>, index: Index, t: nat,
                     requests: seq<seq<byte>>, n: nat)
    requires n < |requests|
    ensures AuditTrail(env, identities, index, t, requests[..n + 1])
         == AuditTrail(env, identities, index, t, requests[..n]) + AuditRows(env, identities, index, t + n, requests[n])
    ensures ReplyBytes(env, identities, index, t, requests[..n + 1])
         == ReplyBytes(env, identities, index, t, requests[..n])
           + WriteFrame(Reply(env, identities, index, t + n, requests[n]))
    ensures var reply := Reply(env, identities, index, t + n, requests[n]);
            reply != [] && SignCount(env, index, t, requests[..n + 1])
                        == SignCount(env, index, t, requests[..n]) + if reply[0] == SIGN_RESPONSE then 1 else 0
  {
    hide AuditRows, Signed, Reply, Framed, Replies, Requests;
    assert requests[..n + 1][..n] == requests[..n];
    ReplyIsSignResponse(env, identities, index, t + n, requests[n]);
    RepliesExtend(env, identities, index, t, requests, n);
  }

  lemma RepliesExtend(env: Environment, identities: seq<LoadedIdentity>, index: Index, t: nat,
                      requests: seq<seq<byte>>, n: nat)
    requires n < |requests|
    ensures Framed(Replies(env, identities, index, t, requests[..n + 1]))
         == Framed(Replies(env, identities, index, t, requests[..n]))
           + WriteFrame(Reply(env, identities, index, t + n, requests[n]))
  {
    hide Reply, Framed, WriteFrame;
    var before := Replies(env, identities, index, t, requests[..n]);
    var reply := Reply(env, identities, index, t + n, requests[n]);
    assert Replies(env, identities, index, t, requests[..n + 1]) == before + [reply];
    FramedSnoc(before, reply);
  }

  lemma {:induction false} FramedSnoc(payloads: seq<seq<byte>>, last: seq<byte>)
    ensures Framed(payloads + [last]) == Framed(payloads) + WriteFrame(last)
  {
    if payloads == [] {
      assert payloads + [last] == [last];
      assert Framed([last][1..]) == [];
    } else {
      assert (payloads + [last])[1..] == payloads[1..] + [last];
      FramedSnoc(payloads[1..], last);
    }
  }

  /** A reply starts with the sign-response byte exactly when a signature was made. */
  lemma ReplyIsSignResponse(env: Environment, identities: seq<LoadedIdentity>, index: Index, t: nat, request: seq<byte>)
    ensures var reply := Reply(env, identities, index, t, request);
            reply != [] && (reply[0] == SIGN_RESPONSE <==> Signed(env, index, t, request).Some?)
  {
  }

  /** The stored key material yields this key; an empty passphrase counts as none. */
  predicate Yields(stored: StoredKey, key: KeyMaterial) {
    match stored.pem
    case Some(PlainPem(held)) => held == key && (stored.passphrase.None? || stored.passphrase == Some(""))
    case Some(SealedPem(held, secret)) => held == key && secret != "" && stored.passphrase == Some(secret)
    case _ => false
  }

  /** The sign request `r` can be answered: with this key, giving this algorithm name and raw signature. */
  ghost predicate Answerable(env: Environment, index: Index, t: nat, r: SignRequest, key: KeyMaterial,
                             name: string, raw: seq<byte>)
  {
    && r.blob in index && Yields(env.keyOf(t, index[r.blob].0), key) && Usable(index[r.blob].1, key)
    && RawSignature(env.prims, key, r.data, r.flags / 4 % 2 == 1) == Some((name, raw))
  }

  /**
   What a sign request is answered with, in bytes. Bit 2 of the flags decides the RSA variant. The
   reply names the algorithm, carries the raw signature made over the requested data, and nothing
   else; the audit row has the record behind the blob.
   */
  lemma SignRequestIsAnswered(env: Environment, identities: seq<LoadedIdentity>, index: Index, t: nat, r: SignRequest,
                              tail: seq<byte>, key: KeyMaterial, name: string, raw: seq<byte>)
    requires RequestFits(r) && Answerable(env, index, t, r, key, name, raw)
    ensures var request := [13] + (BuildSignRequest(r) + tail);
            && Reply(env, identities, index, t, request)
               == [14] + EncodeString(EncodeString(Ascii(name)) + EncodeString(raw))
            && var rows := AuditRows(env, identities, index, t, request);
               if env.auditAccepts(t)
               then |rows| == 1 && rows[0].recordId == index[r.blob].0
                 && rows[0].name == NameOf(identities, index[r.blob].0)
               else rows == []
  {
    var request := [13] + (BuildSignRequest(r) + tail);
    assert request[1..] == BuildSignRequest(r) + tail;
    BuiltRequestParses(r, tail);
    var (id, algo) := index[r.blob];
    var stored := env.keyOf(t, id);
    var blob := EncodeString(Ascii(name)) + EncodeString(raw);
    SignIff(env.prims, algo, stored.pem.value, UsablePassphrase(stored), r.data, FlagsOf(r.flags), blob);
    hide BuildSignRequest, ParseSignRequest, Sign, EncodeString, RawSignature, Usable, Ascii;
    assert Opens(stored.pem.value, UsablePassphrase(stored), key);
  }

  /**
   In particular RSA keys sign by SHA-512 exactly if bit 2 of the request's flags is set, and by
   SHA-256 otherwise.
   */
  lemma RsaFlagsDecideVariant(env: Environment, identities: seq<LoadedIdentity>, index: Index, t: nat, r: SignRequest,
                              id: nat, modulus: nat, bits: nat)
    requires RequestFits(r) && r.blob in index && index[r.blob] == (id, Rsa)
    requires Yields(env.keyOf(t, id), RsaKey(modulus, bits)) && bits > 2040
    ensures var reply := Reply(env, identities, index, t, [13] + BuildSignRequest(r));
            reply == [14] + EncodeString(
              if r.flags / 4 % 2 == 1
              then EncodeString(Ascii("rsa-sha2-512")) + EncodeString(env.prims.rsa(modulus, Sha512, r.data))
              else EncodeString(Ascii("rsa-sha2-256")) + EncodeString(env.prims.rsa(modulus, Sha256, r.data)))
  {
    var key, sha512 := RsaKey(modulus, bits), r.flags / 4 % 2 == 1;
    var name := if sha512 then "rsa-sha2-512" else "rsa-sha2-256";
    var raw := env.prims.rsa(modulus, if sha512 then Sha512 else Sha256, r.data);
    SignRequestIsAnswered(env, identities, index, t, r, [], key, name, raw);
    assert BuildSignRequest(r) + [] == BuildSignRequest(r);
  }

  /** A signature was made for an answerable sign request. */
  lemma SignedIsAnswerable(env: Environment, index: Index, t: nat, request: seq<byte>)
    returns (r: SignRequest, tail: seq<byte>, key: KeyMaterial, name: string, raw: seq<byte>)
    requires Signed(env, index, t, request).Some?
    ensures RequestFits(r) && request == [13] + (BuildSignRequest(r) + tail)
    ensures Answerable(env, index, t, r, key, name, raw)
  {
    hide Sign, RawSignature, Usable, BuildSignRequest, ParseSignRequest, RequestFits, EncodeString, Ascii;
    r := ParseSignRequest(request[1..]).value;
    ParsedRequestIsBuilt(request[1..], r);
    tail :| request[1..] == BuildSignRequest(r) + tail;
    var (id, algo) := index[r.blob];
    var stored := env.keyOf(t, id);
    SignIff(env.prims, algo, stored.pem.value, UsablePassphrase(stored), r.data, FlagsOf(r.flags),
      Signed(env, index, t, request).value.blob);
    key :| Opens(stored.pem.value, UsablePassphrase(stored), key) && Usable(algo, key)
      && RawSignature(env.prims, key, r.data, FlagsOf(r.flags).rsaSha512).Some?;
    var made := RawSignature(env.prims, key, r.data, FlagsOf(r.flags).rsaSha512).value;
    name, raw := made.0, made.1;
  }

  /** A request is answered by a signature exactly if it is an answerable sign request, with ignored bytes after it. */
  lemma AnsweredIff(env: Environment, identities: seq<LoadedIdentity>, index: Index, t: nat, request: seq<byte>)
    ensures var reply := Reply(env, identities, index, t, request);
            reply != [] && reply[0] == 14 <==>
            exists r, tail, key, name, raw :: RequestFits(r) && request == [13] + (BuildSignRequest(r) + tail)
                                              && Answerable(env, index, t, r, key, name, raw)
  {
    ReplyIsSignResponse(env, identities, index, t, request);
    hide Signed, Reply, BuildSignRequest, Answerable, AuditRows;
    if r, tail, key, name, raw :| RequestFits(r) && request == [13] + (BuildSignRequest(r) + tail)
                                  && Answerable(env, index, t, r, key, name, raw) {
      SignRequestIsAnswered(env, identities, index, t, r, tail, key, name, raw);
    }
    if Signed(env, index, t, request).Some? {
      var r, tail, key, name, raw := SignedIsAnswerable(env, index, t, request);
    }
  }

  /** Every other request is answered by the identities or by the one-byte failure. */
  lemma OtherReplies(env: Environment, identities: seq<LoadedIdentity>, index: Index, t: nat, request: seq<byte>)
    ensures var reply := Reply(env, identities, index, t, request);
            && reply != []
            && (request != [] && request[0] == 11 ==> reply == IdentitiesAnswer(identities) && reply[0] == 12)
            && (reply[0] != 14 ==> reply == [5] || (request != [] && request[0] == 11))
  {
  }

  /** The name in an audit row is that of the first identity with the record's id. */
  lemma {:induction false} NameOfIsFirst(identities: seq<LoadedIdentity>, id: nat, name: seq<byte>)
    ensures NameOf(identities, id) == Some(name) <==>
            exists k :: 0 <= k < |identities| && identities[k].recordId == id && identities[k].name == name
                        && forall j :: 0 <= j < k ==> identities[j].recordId != id
  {
    if identities != [] {
      var tail := identities[1..];
      NameOfIsFirst(tail, id, name);
      assert forall j :: 0 < j < |identities| ==> identities[j] == tail[j - 1];
      if identities[0].recordId != id && NameOf(tail, id) == Some(name) {
        var k :| 0 <= k < |tail| && tail[k].recordId == id && tail[k].name == name
          && forall j :: 0 <= j < k ==> tail[j].recordId != id;
        assert identities[k + 1] == tail[k];
      }
    }
  }

  /**
   Only identities the filter admits can be signed with. With the index built from a load of the
   vault, a sign response to a request implies that the requested blob is the public key of an SSH
   record whose name the filter admits, and that a key of that record's algorithm, stored under its
   id, made the signature.
   */
  lemma SignedKeyPassedFilter(env: Environment, records: seq<VaultRecord>, filter: IdentityFilter, t: nat,
                              r: SignRequest, tail: seq<byte>)
    returns (j: nat, identity: LoadedIdentity, key: KeyMaterial, name: string, raw: seq<byte>)
    requires RequestFits(r) && LoadResult(records, filter).Ok?
    requires var identities := LoadResult(records, filter).value;
             Reply(env, identities, BlobIndex(identities), t, [13] + (BuildSignRequest(r) + tail))[0] == 14
    ensures j < |records| && records[j].isSsh && records[j].name.Some? && Admits(filter, records[j].name.value)
    ensures Shows(identity, records[j]) && identity.publicBlob == r.blob
    ensures Yields(env.keyOf(t, records[j].id), key) && Usable(identity.algo, key)
    ensures RawSignature(env.prims, key, r.data, r.flags / 4 % 2 == 1) == Some((name, raw))
    ensures var identities := LoadResult(records, filter).value;
            Reply(env, identities, BlobIndex(identities), t, [13] + (BuildSignRequest(r) + tail))
            == [14] + EncodeString(EncodeString(Ascii(name)) + EncodeString(raw))
  {
    var identities := LoadResult(records, filter).value;
    var index, request := BlobIndex(identities), [13] + (BuildSignRequest(r) + tail);
    AnsweredIff(env, identities, index, t, request);
    var r', tail' ;
    r', tail', key, name, raw :| RequestFits(r') && request == [13] + (BuildSignRequest(r') + tail')
                                 && Answerable(env, index, t, r', key, name, raw);
    SameRequest(r, tail, r', tail');
    SignRequestIsAnswered(env, identities, index, t, r, tail, key, name, raw);
    LoadIsSelection(records, filter);
    IndexHoldsLast(identities);
    hide Reply, BuildSignRequest, EncodeString, RawSignature, BlobIndex;
    var k: nat :| IsLastWith(identities, k, r.blob);
    j, identity := Positions(records, filter, 0)[k], identities[k];
  }

  /** A request's bytes determine the request. */
  lemma SameRequest(r: SignRequest, tail: seq<byte>, r': SignRequest, tail': seq<byte>)
    requires RequestFits(r) && RequestFits(r')
    requires [13 as byte] + (BuildSignRequest(r) + tail) == [13] + (BuildSignRequest(r') + tail')
    ensures r == r'
  {
    BuiltRequestParses(r, tail);
    BuiltRequestParses(r', tail');
    var request := [13 as byte] + (BuildSignRequest(r) + tail);
    assert request[1..] == BuildSignRequest(r) + tail;
    assert request[1..] == BuildSignRequest(r') + tail';
  }

  /**
   The audit log: a request that is not answered by a sign response leaves it unchanged, and one
   that is adds at most one row, which names the signing record and, when the stored key's curve is
   the advertised one, the very algorithm string at the front of the returned signature.
   */
  lemma AuditFollowsReply(env: Environment, identities: seq<LoadedIdentity>, index: Index, t: nat, request: seq<byte>)
    ensures var rows := AuditRows(env, identities, index, t, request);
            var reply := Reply(env, identities, index, t, request);
            && |rows| <= 1
            && (reply[0] != SIGN_RESPONSE ==> rows == [])
            && (reply[0] == SIGN_RESPONSE && env.auditAccepts(t) ==> |rows| == 1)
            && (rows != [] ==>
                  var pem := env.keyOf(t, rows[0].recordId).pem;
                  var blob := ReadString(reply[1..]);
                  && pem.Some?
                  && (|Signed(env, index, t, request).value.blob| < TWO32 ==>
                      && blob.Some? && ReadString(blob.value.0).Some?
                      && (CurveAgrees(Signed(env, index, t, request).value.algo, pem.value) <==>
                          ReadString(blob.value.0).value.0 == Ascii(rows[0].detail))))
  {
    var signature := Signed(env, index, t, request);
    if signature.Some? {
      var s := signature.value;
      var r := ParseSignRequest(request[1..]).value;
      var key := env.keyOf(t, s.recordId);
      AuditNameIsBlobNameIff(env.prims, s.algo, key.pem.value, UsablePassphrase(key), r.data, s.flags);
      var reply := Reply(env, identities, index, t, request);
      assert reply[1..] == EncodeString(s.blob) + [];
      StringRoundTripIff(s.blob, []);
    }
  }
}
