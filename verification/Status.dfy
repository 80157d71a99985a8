/** Server status trees and their collapse into success or failure. */
module Status {
  import opened Wrappers
  import opened Bytes
  import opened Endpoints

  datatype TEndPoint = TEndPoint(ip: string, port: i32)

  datatype SubStatus = Absent | Present(list: seq<TSStatus>)

  datatype TSStatus = TSStatus(code: i32, message: string, subStatus: SubStatus, redirectNode: Option<TEndPoint>)

  const SUCCESS_STATUS: i32 := 200
  const MULTIPLE_ERROR: i32 := 302
  const REDIRECTION_RECOMMEND: i32 := 400

  /** 200 and 400 succeed, 302 succeeds when every sub-status does, anything else is an error. */
  function CheckStatus(s: TSStatus): Result<()>
  {
    if s.code == SUCCESS_STATUS || s.code == REDIRECTION_RECOMMEND then Success(())
    else if s.code == MULTIPLE_ERROR then (if s.subStatus.Present? then FirstFailure(s.subStatus.list) else Success(()))
    else Failure(Server(s.code, s.message))
  }

  /** The first failing sub-status is reported by its own code, even when it is itself a 302. */
  function FirstFailure(subs: seq<TSStatus>): Result<()>
  {
    if subs == [] then Success(())
    else if CheckStatus(subs[0]).Failure? then Failure(Server(subs[0].code, subs[0].message))
    else FirstFailure(subs[1..])
  }

  /** The verdicts a status stands for: its own code, or those below a 302. */
  function Verdicts(s: TSStatus): seq<i32>
  {
    if s.code != MULTIPLE_ERROR then [s.code] else if s.subStatus.Present? then AllVerdicts(s.subStatus.list) else []
  }

  function AllVerdicts(subs: seq<TSStatus>): seq<i32>
  {
    if subs == [] then [] else Verdicts(subs[0]) + AllVerdicts(subs[1..])
  }

  predicate AllOk(codes: seq<i32>)
  {
    forall i :: 0 <= i < |codes| ==> codes[i] == SUCCESS_STATUS || codes[i] == REDIRECTION_RECOMMEND
  }

  /** A status succeeds exactly when every verdict below its 302 nodes is 200 or 400. */
  lemma {:induction false} CheckStatusIff(s: TSStatus)
    ensures CheckStatus(s).Success? <==> AllOk(Verdicts(s))
  {
    if s.code != MULTIPLE_ERROR {
      assert Verdicts(s)[0] == s.code;
    } else if s.subStatus.Present? {
      FirstFailureIff(s.subStatus.list);
    }
  }

  lemma {:induction false} FirstFailureIff(subs: seq<TSStatus>)
    ensures FirstFailure(subs).Success? <==> AllOk(AllVerdicts(subs))
  {
    if subs != [] {
      CheckStatusIff(subs[0]);
      FirstFailureIff(subs[1..]);
      var a, b := Verdicts(subs[0]), AllVerdicts(subs[1..]);
      if AllOk(a + b) {
        assert forall i :: 0 <= i < |a| ==> (a + b)[i] == a[i];
        assert forall i :: 0 <= i < |b| ==> (a + b)[|a| + i] == b[i];
      }
    }
  }

  /** Codes 200 and 400 succeed, a code but 302 fails with itself. */
  lemma CodesDecide(s: TSStatus)
    ensures s.code == 200 || s.code == 400 ==> CheckStatus(s) == Success(())
    ensures s.code != 200 && s.code != 400 && s.code != 302 ==> CheckStatus(s) == Failure(Server(s.code, s.message))
    ensures s.code == 302 && s.subStatus.Absent? ==> CheckStatus(s) == Success(())
  {
  }

  /** Sub-status `k` fails, and none before it does. */
  ghost predicate FirstToFail(subs: seq<TSStatus>, k: nat)
  {
    && k < |subs| && !AllOk(Verdicts(subs[k]))
    && forall j :: 0 <= j < k ==> AllOk(Verdicts(subs[j]))
  }

  lemma {:induction false} FirstFailureIs(subs: seq<TSStatus>, k: nat)
    requires FirstToFail(subs, k)
    ensures FirstFailure(subs) == Failure(Server(subs[k].code, subs[k].message))
  {
    CheckStatusIff(subs[0]);
    if k > 0 {
      forall j | 0 <= j < k - 1 ensures AllOk(Verdicts(subs[1..][j])) {
        assert subs[1..][j] == subs[j + 1];
      }
      FirstFailureIs(subs[1..], k - 1);
    }
  }

  /**
   A 302 that fails reports the first sub-status with a bad verdict in or below it, by that sub-status's own code and
   message.
   */
  lemma ErrorIsFirstFailure(s: TSStatus, k: nat)
    requires s.code == 302 && s.subStatus.Present? && FirstToFail(s.subStatus.list, k)
    ensures CheckStatus(s) == Failure(Server(s.subStatus.list[k].code, s.subStatus.list[k].message))
  {
    FirstFailureIs(s.subStatus.list, k);
  }

  /** Whenever a 302 fails there is such a sub-status. */
  lemma {:induction false} SomeoneFailsFirst(subs: seq<TSStatus>) returns (k: nat)
    requires FirstFailure(subs).Failure?
    ensures FirstToFail(subs, k)
  {
    CheckStatusIff(subs[0]);
    if CheckStatus(subs[0]).Failure? {
      k := 0;
    } else {
      var j := SomeoneFailsFirst(subs[1..]);
      k := j + 1;
      forall i | 0 <= i < k ensures AllOk(Verdicts(subs[i])) {
        if i > 0 {
          assert subs[i] == subs[1..][i - 1];
        }
      }
    }
  }

  /** A redirect recommendation with a host and a port in 1..65535. */
  function EndpointFromRedirect(node: TEndPoint): (r: Option<Endpoint>)
    ensures r.Some? <==> node.ip != "" && 0 < node.port < 0x1_0000
    ensures r.Some? ==> r.value.host == node.ip && r.value.port == node.port
  {
    if node.ip == "" then None
    else if 0 <= node.port < 0x1_0000 && node.port != 0 then Some(Endpoint(node.ip, node.port))
    else None
  }
}
