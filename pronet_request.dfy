/**
 * Services/Pronet/PronetRequest.cs: the statistics query body, and the JSON
 * members it serialises to. The four required members and `interval` are
 * always written; `storeCode`, `macAddress`, `ip` and `port` are left out
 * when null.
 */
module PronetRequests {
  import opened Wrappers

  datatype PronetRequest = PronetRequest(
    userName: string,
    passWord: string,
    startTime: string,
    endTime: string,
    interval: string,
    storeCode: Option<string>,
    macAddress: Option<string>,
    ip: Option<string>,
    port: Option<string>)

  /** "0" asks Pronet for hourly figures. */
  const DefaultInterval: string := "0"

  /** `new PronetRequest { UserName, PassWord, StartTime, EndTime }`. */
  function NewPronetRequest(userName: string, passWord: string, startTime: string, endTime: string): (r: PronetRequest)
    ensures r.interval == "0"
    ensures r.storeCode.None? && r.macAddress.None? && r.ip.None? && r.port.None?
    ensures r.userName == userName && r.passWord == passWord && r.startTime == startTime && r.endTime == endTime
  {
    PronetRequest(userName, passWord, startTime, endTime, DefaultInterval, None, None, None, None)
  }

  /** The members of the body, by their C# property. */
  datatype Property = UserName | PassWord | StartTime | EndTime | Interval | StoreCode | MacAddress | Ip | Port

  /** `[JsonPropertyName(...)]`: the name each property is written under. */
  function JsonName(p: Property): string {
    match p
    case UserName => "userName"
    case PassWord => "passWord"
    case StartTime => "startTime"
    case EndTime => "endTime"
    case Interval => "interval"
    case StoreCode => "storeCode"
    case MacAddress => "macAddress"
    case Ip => "ip"
    case Port => "port"
  }

  /** A JSON member: property and string value. */
  type Member = (Property, string)

  /** `[JsonIgnore(Condition = WhenWritingNull)]`: the member is written only when non-null. */
  function WhenNotNull(p: Property, value: Option<string>): seq<Member> {
    if value.Some? then [(p, value.value)] else []
  }

  /** The members of the serialised body, in declaration order. */
  function Serialize(r: PronetRequest): seq<Member> {
    RequiredMembers(r) + OptionalMembers(r)
  }

  /** The members always written, in declaration order. */
  function RequiredMembers(r: PronetRequest): seq<Member> {
    [(UserName, r.userName), (PassWord, r.passWord), (StartTime, r.startTime),
     (EndTime, r.endTime), (Interval, r.interval)]
  }

  /** The members written only when non-null, in declaration order. */
  function OptionalMembers(r: PronetRequest): seq<Member> {
    WhenNotNull(StoreCode, r.storeCode) + (WhenNotNull(MacAddress, r.macAddress)
      + (WhenNotNull(Ip, r.ip) + WhenNotNull(Port, r.port)))
  }

  /** The JSON names that appear in a body. */
  function Names(members: seq<Member>): set<string> {
    set i | 0 <= i < |members| :: JsonName(members[i].0)
  }

  /** The value of the first member for property `p`. */
  function Find(members: seq<Member>, p: Property): Option<string> {
    if members == [] then None
    else if members[0].0 == p then Some(members[0].1)
    else Find(members[1..], p)
  }

  /**
   * Deserialisation: a missing required member is an error, a missing
   * `interval` takes its default, a missing optional member reads as null.
   */
  function Deserialize(members: seq<Member>): Option<PronetRequest> {
    var user, pass, start, end := Find(members, UserName), Find(members, PassWord),
                                  Find(members, StartTime), Find(members, EndTime);
    if user.None? || pass.None? || start.None? || end.None? then None
    else Some(PronetRequest(user.value, pass.value, start.value, end.value,
                            Find(members, Interval).GetOr(DefaultInterval),
                            Find(members, StoreCode), Find(members, MacAddress),
                            Find(members, Ip), Find(members, Port)))
  }

  lemma {:induction false} FindAppend(a: seq<Member>, b: seq<Member>, p: Property)
    ensures Find(a + b, p) == if Find(a, p).Some? then Find(a, p) else Find(b, p)
  {
    if a == [] {
      assert a + b == b;
    } else {
      assert (a + b)[0] == a[0];
      assert (a + b)[1..] == a[1..] + b;
      FindAppend(a[1..], b, p);
    }
  }

  /** The value a request gives each property. */
  function MemberValue(r: PronetRequest, p: Property): Option<string> {
    match p
    case UserName => Some(r.userName)
    case PassWord => Some(r.passWord)
    case StartTime => Some(r.startTime)
    case EndTime => Some(r.endTime)
    case Interval => Some(r.interval)
    case StoreCode => r.storeCode
    case MacAddress => r.macAddress
    case Ip => r.ip
    case Port => r.port
  }

  /** Each property's member carries the request's value; a null optional property has no member. */
  lemma FindSerialized(r: PronetRequest, p: Property)
    ensures Find(Serialize(r), p) == MemberValue(r, p)
  {
    FindAppend(RequiredMembers(r), OptionalMembers(r), p);
    FindRequired(r, p);
    FindOptional(r, p);
  }

  /** The always-written members answer for their own properties only. */
  lemma FindRequired(r: PronetRequest, p: Property)
    ensures Find(RequiredMembers(r), p) ==
      if p.StoreCode? || p.MacAddress? || p.Ip? || p.Port? then None else MemberValue(r, p)
  {
    var u, w, st, en, iv := [(UserName, r.userName)], [(PassWord, r.passWord)],
                            [(StartTime, r.startTime)], [(EndTime, r.endTime)], [(Interval, r.interval)];
    assert RequiredMembers(r) == u + (w + (st + (en + iv)));
    FindAppend(u, w + (st + (en + iv)), p);
    FindAppend(w, st + (en + iv), p);
    FindAppend(st, en + iv, p);
    FindAppend(en, iv, p);
    assert iv[1..] == [];
  }

  /** The optional members answer for their own properties only, null when not written. */
  lemma FindOptional(r: PronetRequest, p: Property)
    ensures Find(OptionalMembers(r), p) ==
      if p.StoreCode? || p.MacAddress? || p.Ip? || p.Port? then MemberValue(r, p) else None
  {
    var a, b := WhenNotNull(StoreCode, r.storeCode), WhenNotNull(MacAddress, r.macAddress);
    var c, d := WhenNotNull(Ip, r.ip), WhenNotNull(Port, r.port);
    FindAppend(a, b + (c + d), p);
    FindAppend(b, c + d, p);
    FindAppend(c, d, p);
  }

  /** Leaving out the null members loses nothing: the body deserialises to the request it came from. */
  lemma SerializeRoundTrip(r: PronetRequest)
    ensures Deserialize(Serialize(r)) == Some(r)
  {
    FindSerialized(r, UserName);
    FindSerialized(r, PassWord);
    FindSerialized(r, StartTime);
    FindSerialized(r, EndTime);
    FindSerialized(r, Interval);
    FindSerialized(r, StoreCode);
    FindSerialized(r, MacAddress);
    FindSerialized(r, Ip);
    FindSerialized(r, Port);
  }

  lemma {:induction false} FindIsPresence(members: seq<Member>, p: Property)
    ensures Find(members, p).Some? <==> exists i :: 0 <= i < |members| && members[i].0 == p
  {
    if members != [] {
      FindIsPresence(members[1..], p);
      if Find(members[1..], p).Some? {
        var i :| 0 <= i < |members[1..]| && members[1..][i].0 == p;
        assert members[i + 1].0 == p;
      }
    }
  }

  /** The required members and `interval` are always written; each optional one exactly when it is non-null. */
  lemma SerializedMembers(r: PronetRequest, p: Property)
    ensures (exists i :: 0 <= i < |Serialize(r)| && Serialize(r)[i].0 == p) <==> MemberValue(r, p).Some?
    ensures p in {UserName, PassWord, StartTime, EndTime, Interval} ==>
      exists i :: 0 <= i < |Serialize(r)| && Serialize(r)[i].0 == p
  {
    FindSerialized(r, p);
    FindIsPresence(Serialize(r), p);
  }
}
