/** How a call is addressed: `[target]Service.Method` is printed by the caller, parsed by the
    client codec, and its target is normalised by the relay before the hub sees it. */
module Addressing {
  import opened Common

  /** The target that stands for "no target" in a printed name. */
  const EVERYONE := "-1"

  /** GetServiceName: the name under which a caller invokes `methodName` of `service`. */
  function ServiceName(service: string, methodName: string, target: Option<string>): string {
    match target
    case Some(t) => "[" + t + "]" + (service + "." + methodName)
    case None => "[-1]" + (service + "." + methodName)
  }

  /** The channel of a method name. The client codec, the server codec and both
      demultiplexers use this same rule. A dot in first position does not count. */
  function ChannelOf(methodName: string): string {
    var index := Index(methodName, '.');
    if index > 0 then methodName[..index] else methodName
  }

  datatype Address = Address(target: string, methodName: string, channel: string)

  /** The parsing part of WriteRequest. `None` is the slice `[1:0]`, which panics. */
  function Parse(serviceMethod: string): Option<Address> {
    var bracket := Index(serviceMethod, ']');
    if bracket < 0 then
      Some(Address(EVERYONE, serviceMethod, ChannelOf(serviceMethod)))
    else if bracket == 0 then
      None
    else
      var methodName := serviceMethod[bracket + 1..];
      Some(Address(serviceMethod[1..bracket], methodName, ChannelOf(methodName)))
  }

  /** The relay in RegisterService: a missing target and `-1` both become no target. */
  function Relayed(target: Option<string>): Option<string> {
    if target.Some? && target.value != EVERYONE then target else None
  }

  /** The channel of a method: what comes before the first dot, provided that is not empty; else all
      of the method. */
  predicate IsChannelOf(channel: string, methodName: string) {
    || (channel != "" && '.' !in channel && channel + "." <= methodName)
    || (channel == methodName && ('.' !in methodName || methodName[0] == '.'))
  }

  lemma ChannelIsThePrefix(methodName: string, channel: string)
    ensures ChannelOf(methodName) == channel <==> IsChannelOf(channel, methodName)
  {
    var index := Index(methodName, '.');
    if index > 0 {
      assert methodName[..index] + "." == methodName[..index + 1];
    }
    if channel != "" && '.' !in channel && channel + "." <= methodName {
      assert methodName[|channel|] == (channel + ".")[|channel|];
      assert methodName[..|channel|] == channel;
      IndexIs(methodName, '.', |channel|);
    }
  }

  lemma ChannelOfPrinted(service: string, methodName: string)
    ensures ChannelOf(service + "." + methodName) == service <==> service != "" && '.' !in service
  {
    var name := service + "." + methodName;
    if '.' !in service {
      assert name[..|service|] == service;
      IndexIs(name, '.', |service|);
    } else {
      var i := Index(service, '.');
      assert name[..i] == service[..i];
      IndexIs(name, '.', i);
    }
  }

  /** A bracketed prefix is read up to its first `]`. */
  lemma ParseBracketed(prefix: string, rest: string)
    requires ']' !in prefix
    ensures Parse("[" + prefix + "]" + rest) == Some(Address(prefix, rest, ChannelOf(rest)))
  {
    var name := "[" + prefix + "]" + rest;
    var end := 1 + |prefix|;
    assert name[..end] == "[" + prefix;
    IndexIs(name, ']', end);
    assert name[1..end] == prefix;
    assert name[end + 1..] == rest;
  }

  /** A target with a `]` is cut short at it. */
  lemma BracketCutsTheTarget(target: string, rest: string)
    requires ']' in target
    ensures var parsed := Parse("[" + target + "]" + rest);
            && parsed.Some? && parsed.value.target == target[..Index(target, ']')]
            && |parsed.value.methodName| > |rest|
  {
    FirstBracket("[", target, "]" + rest);
    assert "[" + target + "]" + rest == "[" + target + ("]" + rest);
  }

  lemma FirstBracket(open: string, target: string, rest: string)
    requires |open| == 1 && ']' !in open && ']' in target
    ensures var name := open + target + rest;
            var i := Index(target, ']');
            Index(name, ']') == i + 1 && name[1..i + 1] == target[..i]
  {
    var name := open + target + rest;
    var i := Index(target, ']');
    assert name[..i + 1] == open + target[..i];
    IndexIs(name, ']', i + 1);
  }

  /** Printing and parsing are inverse on a target exactly when the target has no `]` and the
      service is a non-empty name without a dot. */
  lemma PrintParseRoundTrip(service: string, methodName: string, target: string)
    ensures Parse(ServiceName(service, methodName, Some(target)))
            == Some(Address(target, service + "." + methodName, service))
            <==> ']' !in target && service != "" && '.' !in service
  {
    var name := service + "." + methodName;
    ChannelOfPrinted(service, methodName);
    if ']' !in target {
      ParseBracketed(target, name);
    } else {
      BracketCutsTheTarget(target, name);
    }
  }

  lemma NoTargetIsEveryone(service: string, methodName: string)
    ensures ServiceName(service, methodName, None) == ServiceName(service, methodName, Some(EVERYONE))
  {
    assert "[" + EVERYONE + "]" == "[-1]";
  }

  /** Without a target the call is addressed to everyone, with the method kept whole. */
  lemma NoTargetRoundTrip(service: string, methodName: string)
    ensures Parse(ServiceName(service, methodName, None))
            == Some(Address("-1", service + "." + methodName, service))
            <==> service != "" && '.' !in service
  {
    NoTargetIsEveryone(service, methodName);
    PrintParseRoundTrip(service, methodName, EVERYONE);
  }

  /** The part of a target in front of its first `]`; everyone, when there is no target. */
  function Shown(target: Option<string>): string {
    if target.None? then EVERYONE
    else
      var end := Index(target.value, ']');
      if end < 0 then target.value else target.value[..end]
  }

  /** Only the part of a target in front of its first `]` is read back, and the method comes back
      whole exactly when there is nothing behind it. */
  lemma ParsePrinted(service: string, methodName: string, target: Option<string>)
    ensures var parsed := Parse(ServiceName(service, methodName, target));
            && parsed.Some? && parsed.value.target == Shown(target)
            && (parsed.value.methodName == service + "." + methodName <==> target.None? || ']' !in target.value)
  {
    var name := service + "." + methodName;
    NoTargetIsEveryone(service, methodName);
    if target.Some? && ']' in target.value {
      BracketCutsTheTarget(target.value, name);
    } else {
      ParseBracketed(Shown(target), name);
    }
  }

  /** The address names the plain method on the channel of the service exactly when the target has
      no `]` and the service is a non-empty name without a dot. */
  lemma AddressIsPlain(service: string, methodName: string, target: Option<string>)
    ensures var address := Parse(ServiceName(service, methodName, target));
            && address.Some?
            && (address.value.methodName == service + "." + methodName && address.value.channel == service
                <==> (target.None? || ']' !in target.value) && service != "" && '.' !in service)
  {
    ParsePrinted(service, methodName, target);
    ChannelOfPrinted(service, methodName);
  }

  lemma SplitAtFirstDot(front: string, rest: string, front': string, rest': string)
    requires '.' !in front && '.' !in front' && front + "." + rest == front' + "." + rest'
    ensures front == front' && rest == rest'
  {
    var whole := front + "." + rest;
    assert whole[..|front|] == front && whole[..|front'|] == front';
    IndexIs(whole, '.', |front|);
    IndexIs(whole, '.', |front'|);
    assert whole[|front| + 1..] == rest && whole[|front'| + 1..] == rest';
  }

  /** Two calls have the same printed name only when service, method and shown target are the same. */
  lemma PrintingIsInjective(service: string, methodName: string, target: Option<string>,
                            service': string, methodName': string, target': Option<string>)
    requires ServiceName(service, methodName, target) == ServiceName(service', methodName', target')
    requires '.' !in service && '.' !in service'
    requires (target.None? || ']' !in target.value) && (target'.None? || ']' !in target'.value)
    ensures service == service' && methodName == methodName'
    ensures (if target.None? then "-1" else target.value) == (if target'.None? then "-1" else target'.value)
  {
    ParsePrinted(service, methodName, target);
    ParsePrinted(service', methodName', target');
    SplitAtFirstDot(service, methodName, service', methodName');
  }

  /** WriteRequest panics exactly on a name that begins with `]`; otherwise the name is the
      address put back together, except for the one character in front of the target. */
  lemma ParseReassembles(name: string)
    ensures Parse(name).None? <==> name != "" && name[0] == ']'
    ensures Parse(name).Some? && ']' in name ==>
              var a := Parse(name).value;
              name == [name[0]] + a.target + "]" + a.methodName && ']' !in a.target
    ensures ']' !in name ==>
              Parse(name).Some? && Parse(name).value.target == "-1" && Parse(name).value.methodName == name
  {
    var i := Index(name, ']');
    if i > 0 {
      assert name[..i] == [name[0]] + name[1..i];
      assert name == name[..i] + [name[i]] + name[i + 1..];
    }
    if name != "" && name[0] == ']' { IndexIs(name, ']', 0); }
  }
}
