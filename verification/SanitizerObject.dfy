/** The sanitizer as the object it is: three allocators, counters and a set of
    redacted names, updated in place while a document is walked. */
module SanitizerObject {
  import opened Options
  import opened Text
  import opened Pools
  import opened Allocators
  import S = Sanitizing
  import A = SanitizerAudit

  datatype Reply<+T> = Done(value: T) | Refuse(refusal: S.Refusal)

  class Sanitizer {
    const policy: S.Policy
    const ipv4: IPv4Allocator
    const ipv6: IPv6Allocator
    const mac: MacAllocator
    var counts: S.Counts
    var redacted: set<string>

    ghost predicate Valid()
      reads this, ipv4, ipv6, mac
    {
      ipv4.Valid() && ipv6.Valid() && mac.Valid()
    }

    ghost function State(): S.State
      reads this, ipv4, ipv6, mac
      requires Valid()
    {
      S.State(ipv4.State(), ipv6.State(), mac.State(), counts, redacted)
    }

    constructor (policy: S.Policy)
      ensures this.policy == policy && Valid() && State() == S.Fresh()
      ensures fresh(ipv4) && fresh(ipv6) && fresh(mac)
    {
      this.policy := policy;
      ipv4 := new IPv4Allocator();
      ipv6 := new IPv6Allocator();
      mac := new MacAllocator();
      counts, redacted := S.NoCounts(), {};
    }

    method SubstituteV4(tokens: S.Tokens) returns (out: S.Tokens, n: nat)
      requires Valid()
      modifies ipv4
      ensures Valid() && S.Pass(out, ipv4.State(), n) == S.PassV4(tokens, old(ipv4.State()))
    {
      out, n := [], 0;
      for i := 0 to |tokens|
        invariant ipv4.Valid() && ipv6.Valid() && mac.Valid()
        invariant S.PassV4(tokens, old(ipv4.State())) ==
                  Joined(out, n, S.PassV4(tokens[i..], ipv4.State()))
      {
        ghost var step := S.StepV4(tokens[i], ipv4.State());
        assert tokens[i..][0] == tokens[i] && tokens[i..][1..] == tokens[i + 1..];
        JoinStep(out, n, step.token, step.count, S.PassV4(tokens[i + 1..], step.pool));
        if tokens[i].V4? {
          var placeholder := ipv4.Allocate(tokens[i].addr);
          out, n := out + [tokens[i].(addr := placeholder)], n + 1;
        } else {
          out := out + [tokens[i]];
        }
      }
      assert tokens[|tokens|..] == [] && out + [] == out;
    }

    method SubstituteV6(tokens: S.Tokens) returns (out: S.Tokens, n: nat)
      requires Valid()
      modifies ipv6
      ensures Valid() && S.Pass(out, ipv6.State(), n) == S.PassV6(tokens, old(ipv6.State()))
    {
      out, n := [], 0;
      for i := 0 to |tokens|
        invariant ipv4.Valid() && ipv6.Valid() && mac.Valid()
        invariant S.PassV6(tokens, old(ipv6.State())) ==
                  Joined(out, n, S.PassV6(tokens[i..], ipv6.State()))
      {
        ghost var step := S.StepV6(tokens[i], ipv6.State());
        assert tokens[i..][0] == tokens[i] && tokens[i..][1..] == tokens[i + 1..];
        JoinStep(out, n, step.token, step.count, S.PassV6(tokens[i + 1..], step.pool));
        if tokens[i].V6? {
          var placeholder := ipv6.Allocate(tokens[i].name);
          out, n := out + [tokens[i].(name := placeholder)], n + 1;
        } else {
          out := out + [tokens[i]];
        }
      }
      assert tokens[|tokens|..] == [] && out + [] == out;
    }

    method SubstituteMac(tokens: S.Tokens) returns (out: S.Tokens, n: nat)
      requires Valid()
      modifies mac
      ensures Valid() && S.Pass(out, mac.State(), n) == S.PassMac(tokens, old(mac.State()))
    {
      out, n := [], 0;
      for i := 0 to |tokens|
        invariant ipv4.Valid() && ipv6.Valid() && mac.Valid()
        invariant S.PassMac(tokens, old(mac.State())) ==
                  Joined(out, n, S.PassMac(tokens[i..], mac.State()))
      {
        ghost var step := S.StepMac(tokens[i], mac.State());
        assert tokens[i..][0] == tokens[i] && tokens[i..][1..] == tokens[i + 1..];
        JoinStep(out, n, step.token, step.count, S.PassMac(tokens[i + 1..], step.pool));
        if tokens[i].Mac? && !S.OwnMac(tokens[i].name) {
          var placeholder := mac.Allocate(tokens[i].name);
          out, n := out + [S.Mac(placeholder)], n + 1;
        } else {
          out := out + [tokens[i]];
        }
      }
      assert tokens[|tokens|..] == [] && out + [] == out;
    }

    method ReplaceAddresses(tokens: S.Tokens) returns (out: S.Tokens, changed: bool)
      requires Valid()
      modifies this, ipv4, ipv6, mac
      ensures Valid() && S.Substituted(out, State(), changed) == S.ReplaceAddresses(tokens, old(State()))
    {
      ghost var st := State();
      var out4, n4 := SubstituteV4(tokens);
      assert ipv6.State() == st.v6 && mac.State() == st.mac;
      counts := counts.(ipv4 := counts.ipv4 + n4);
      var out6, n6 := SubstituteV6(out4);
      assert mac.State() == st.mac;
      counts := counts.(ipv6 := counts.ipv6 + n6);
      var nm;
      out, nm := SubstituteMac(out6);
      counts := counts.(mac := counts.mac + nm);
      changed := n4 + n6 + nm > 0;
    }

    method SubstituteGeneric(tokens: S.Tokens, name: string) returns (out: S.Tokens, changed: bool)
      requires Valid()
      modifies this, ipv4, ipv6, mac
      ensures Valid() && S.Substituted(out, State(), changed) == S.SubstituteGeneric(tokens, name, old(State()))
    {
      out, changed := ReplaceAddresses(tokens);
      var hostLike := Lower(name) in S.HOSTNAME_FIELDS || S.StrictHostname(S.Rendered(tokens));
      if !changed && hostLike {
        counts := counts.(hostname := counts.hostname + 1);
        redacted := redacted + {name};
        out, changed := [S.Lit("host.example.invalid")], true;
      }
    }

    method SubstituteIdentifying(tokens: S.Tokens, name: string) returns (out: S.Tokens)
      requires Valid()
      modifies this, ipv4, ipv6, mac
      ensures Valid() && S.Substituted(out, State(), true) == S.SubstituteIdentifying(tokens, name, old(State()))
    {
      match S.KindOf(name)
      case NetgateId =>
        counts := counts.(netgateId := counts.netgateId + 1);
        redacted := redacted + {name};
        out := [S.Lit("ANONYMIZED0000000000")];
      case Serial =>
        counts := counts.(serial := counts.serial + 1);
        redacted := redacted + {name};
        out := [S.Lit("SYNTHETIC-SERIAL-0000")];
      case Username =>
        counts := counts.(username := counts.username + 1);
        redacted := redacted + {name};
        if S.HasAt(tokens) {
          var host, n := SubstituteV4(S.AfterAt(tokens));
          if n > 0 {
            counts := counts.(ipv4 := counts.ipv4 + n);
            return [S.Lit("admin@")] + host;
          }
        }
        out := S.UsernameFallback();
      case OtherIdentifying =>
        var changed;
        out, changed := SubstituteGeneric(tokens, name);
        redacted := redacted + {name};
        if !changed {
          counts := counts.(genericRedacted := counts.genericRedacted + 1);
          out := [S.Lit("REDACTED-" + name)];
        }
    }

    method SanitizeString(tokens: S.Tokens, name: string, path: string) returns (reply: Reply<S.Tokens>)
      requires Valid()
      modifies this, ipv4, ipv6, mac
      ensures Valid() && Agrees(reply, State(), S.SanitizeString(policy, tokens, name, path, old(State())))
    {
      var text := S.Rendered(tokens);
      if text == "" {
        return Done(tokens);
      }
      var why := S.RefusalOf(policy, text, name);
      if why.Some? {
        return Refuse(S.Refusal(path, why.value));
      }
      var out, changed;
      if S.Identifying(policy, name) {
        out := SubstituteIdentifying(tokens, name);
      } else {
        out, changed := SubstituteGeneric(tokens, name);
      }
      reply := Done(out);
    }

    method Sanitize(v: S.Json, name: string, path: string) returns (reply: Reply<S.Json>)
      requires Valid()
      modifies this, ipv4, ipv6, mac
      ensures Valid() && Agrees(reply, State(), S.Sanitize(policy, v, name, path, old(State())))
      decreases v, 0
    {
      match v
      case Obj(fields) =>
        var r := SanitizeFields(fields, path);
        reply := if r.Done? then Done(S.Obj(r.value)) else Refuse(r.refusal);
      case Arr(items) =>
        var r := SanitizeItems(items, name, path);
        reply := if r.Done? then Done(S.Arr(r.value)) else Refuse(r.refusal);
      case Str(tokens) =>
        var r := SanitizeString(tokens, name, path);
        reply := if r.Done? then Done(S.Str(r.value)) else Refuse(r.refusal);
      case Atom(_) =>
        reply := Done(v);
    }

    method SanitizeFields(fields: seq<S.Field>, path: string) returns (reply: Reply<seq<S.Field>>)
      requires Valid()
      modifies this, ipv4, ipv6, mac
      ensures Valid() && Agrees(reply, State(), S.SanitizeFields(policy, fields, path, old(State())))
      decreases fields, 0
    {
      var out := [];
      assert fields[0..] == fields;
      PrependNothing(S.SanitizeFields(policy, fields, path, State()));
      for i := 0 to |fields|
        invariant Valid()
        invariant S.SanitizeFields(policy, fields, path, old(State())) ==
                  Prepend(out, S.SanitizeFields(policy, fields[i..], path, State()))
      {
        var f := fields[i];
        assert fields[i..][0] == f && fields[i..][1..] == fields[i + 1..];
        assert f.value < f && f in fields;
        var r := Sanitize(f.value, f.key, S.KeyPath(path, f.key));
        if r.Refuse? {
          return Refuse(r.refusal);
        }
        PrependStep(out, S.Field(f.key, r.value), S.SanitizeFields(policy, fields[i + 1..], path, State()));
        out := out + [S.Field(f.key, r.value)];
      }
      assert fields[|fields|..] == [] && out + [] == out;
      reply := Done(out);
    }

    method SanitizeItems(items: seq<S.Json>, name: string, path: string) returns (reply: Reply<seq<S.Json>>)
      requires Valid()
      modifies this, ipv4, ipv6, mac
      ensures Valid() && Agrees(reply, State(), S.SanitizeItems(policy, items, name, path, 0, old(State())))
      decreases items, 0
    {
      var out := [];
      assert items[0..] == items;
      PrependNothing(S.SanitizeItems(policy, items, name, path, 0, State()));
      for i := 0 to |items|
        invariant Valid()
        invariant S.SanitizeItems(policy, items, name, path, 0, old(State())) ==
                  Prepend(out, S.SanitizeItems(policy, items[i..], name, path, i, State()))
      {
        assert items[i..][0] == items[i] && items[i..][1..] == items[i + 1..];
        var r := Sanitize(items[i], name, S.IndexPath(path, i));
        if r.Refuse? {
          return Refuse(r.refusal);
        }
        PrependStep(out, r.value, S.SanitizeItems(policy, items[i + 1..], name, path, i + 1, State()));
        out := out + [r.value];
      }
      assert items[|items|..] == [] && out + [] == out;
      reply := Done(out);
    }

    /** A fresh sanitizer's run is the one the audit module describes. */
    method Run(v: S.Json) returns (result: A.Result)
      requires Valid() && State() == S.Fresh()
      modifies this, ipv4, ipv6, mac
      ensures result == A.Run(policy, v)
    {
      var r := Sanitize(v, "", "$");
      match r
      case Refuse(why) => result := A.RefusedInput(why);
      case Done(out) =>
        var problems := A.Audit(policy, out, redacted);
        result := if problems == [] then A.Sanitized(out, counts, redacted) else A.SelfCheckFailed(problems[0]);
    }
  }

  /** A reply and final state against the specified outcome. */
  ghost predicate Agrees<T(!new)>(reply: Reply<T>, st: S.State, o: S.Outcome<T>) {
    match o
    case Ok(v, st') => reply == Done(v) && st == st'
    case Refused(why) => reply == Refuse(why)
  }

  function Joined<K, P>(out: S.Tokens, n: nat, rest: S.Pass<K, P>): S.Pass<K, P> {
    S.Pass(out + rest.tokens, rest.pool, n + rest.count)
  }

  lemma JoinStep<K(!new), P>(out: S.Tokens, n: nat, t: S.Token, m: nat, rest: S.Pass<K, P>)
    ensures Joined(out, n, S.Pass([t] + rest.tokens, rest.pool, m + rest.count)) == Joined(out + [t], n + m, rest)
  {
    assert out + ([t] + rest.tokens) == out + [t] + rest.tokens;
  }

  function Prepend<T>(out: seq<T>, o: S.Outcome<seq<T>>): S.Outcome<seq<T>> {
    match o
    case Ok(v, st) => S.Ok(out + v, st)
    case Refused(why) => S.Refused(why)
  }

  lemma PrependNothing<T>(o: S.Outcome<seq<T>>)
    ensures Prepend([], o) == o
  {
    if o.Ok? {
      assert [] + o.value == o.value;
    }
  }

  lemma PrependStep<T>(out: seq<T>, t: T, o: S.Outcome<seq<T>>)
    ensures o.Ok? ==> Prepend(out, S.Ok([t] + o.value, o.state)) == Prepend(out + [t], o)
  {
    if o.Ok? {
      assert out + ([t] + o.value) == out + [t] + o.value;
    }
  }
}
