/** The record tables of dns_server.py. Names are byte strings; the address type is left open. */
module DnsRecords {
  import opened Wrappers
  import opened Bytes

  type Name = seq<byte>

  /** `_records` (A) and `_ip_to_hostname` (PTR). */
  datatype Records<A(==)> = Records(a: map<Name, A>, ptr: map<A, Name>)

  /** Every PTR record is confirmed by its A record. */
  ghost predicate Confirmed<A>(r: Records<A>) {
    forall ip :: ip in r.ptr ==> r.ptr[ip] in r.a && r.a[r.ptr[ip]] == ip
  }

  function Added<A>(r: Records<A>, hostname: Name, ip: A): Records<A> {
    if hostname == [] then r
    else
      var stale := hostname in r.a && r.a[hostname] != ip && r.a[hostname] in r.ptr && r.ptr[r.a[hostname]] == hostname;
      Records(r.a[hostname := ip], (if stale then r.ptr - {r.a[hostname]} else r.ptr)[ip := hostname])
  }

  /** `remove_record(hostname=...)` */
  function HostRemoved<A>(r: Records<A>, hostname: Name): Records<A> {
    if hostname == [] || hostname !in r.a then r
    else
      var ip := r.a[hostname];
      Records(r.a - {hostname}, if ip in r.ptr && r.ptr[ip] == hostname then r.ptr - {ip} else r.ptr)
  }

  /** `remove_record(ip=...)` */
  function AddressRemoved<A>(r: Records<A>, ip: A): Records<A> {
    if ip !in r.ptr then r
    else
      var hostname := r.ptr[ip];
      Records(if hostname in r.a && r.a[hostname] == ip then r.a - {hostname} else r.a, r.ptr - {ip})
  }

  /** Removing several addresses at once. */
  function AllRemoved<A>(r: Records<A>, ips: set<A>): Records<A> {
    Records(r.a - (set ip | ip in ips && ip in r.ptr :: r.ptr[ip]), r.ptr - ips)
  }

  lemma RemoveOneMore<A>(r: Records<A>, ips: set<A>, ip: A)
    requires Confirmed(r)
    ensures Confirmed(AllRemoved(r, ips))
    ensures AllRemoved(r, ips + {ip}) == AddressRemoved(AllRemoved(r, ips), ip)
  {
  }

  lemma AddedKeeps<A>(r: Records<A>, hostname: Name, ip: A)
    requires Confirmed(r)
    ensures Confirmed(Added(r, hostname, ip))
    ensures hostname != [] ==> Added(r, hostname, ip).a == r.a[hostname := ip] && ip in Added(r, hostname, ip).ptr
    ensures forall x :: x in Added(r, hostname, ip).ptr ==> x == ip || x in r.ptr
  {
  }

  lemma HostRemovedKeeps<A>(r: Records<A>, hostname: Name)
    requires Confirmed(r)
    ensures Confirmed(HostRemoved(r, hostname)) &&
            HostRemoved(r, hostname).a == r.a - (if hostname == [] then {} else {hostname})
  {
  }

  /** Removing an address removes its name too, and leaves no PTR record for it. */
  lemma AddressRemovedKeeps<A>(r: Records<A>, ip: A)
    requires Confirmed(r)
    ensures Confirmed(AddressRemoved(r, ip)) && AddressRemoved(r, ip).ptr == r.ptr - {ip}
    ensures ip in r.ptr ==> AddressRemoved(r, ip).a == r.a - {r.ptr[ip]}
  {
  }

  /** Registering and then removing an address that had neither record restores both tables. */
  lemma AddThenRemove<A>(r: Records<A>, hostname: Name, ip: A)
    requires Confirmed(r) && hostname != [] && hostname !in r.a && ip !in r.ptr
    ensures AddressRemoved(Added(r, hostname, ip), ip) == r
  {
  }

  /** The converse of `Confirmed`: every A record's address has a PTR record, and it names the same host. */
  ghost predicate Named<A>(r: Records<A>) {
    forall name :: name in r.a ==> r.a[name] in r.ptr && r.ptr[r.a[name]] == name
  }

  /**
  Registering a name keeps the converse exactly when the address has no other name: a second name takes the PTR record.
  */
  lemma AddedKeepsNamedIff<A>(r: Records<A>, hostname: Name, ip: A)
    requires Confirmed(r) && Named(r) && hostname != []
    ensures Named(Added(r, hostname, ip)) <==> ip !in r.ptr || r.ptr[ip] == hostname
  {
    var r' := Added(r, hostname, ip);
    if ip in r.ptr && r.ptr[ip] != hostname {
      assert r.ptr[ip] in r'.a && r'.a[r.ptr[ip]] == ip && r'.ptr[ip] == hostname;
    }
  }

  /** Removing an address keeps the converse, so both tables stay inverse to each other. */
  lemma AddressRemovedKeepsNamed<A>(r: Records<A>, ip: A)
    requires Confirmed(r) && Named(r)
    ensures Named(AddressRemoved(r, ip))
  {
  }

  class DNSServer<A(==)> {
    var records: map<Name, A>
    var ipToHostname: map<A, Name>

    function Contents(): Records<A>
      reads this
    {
      Records(records, ipToHostname)
    }

    constructor ()
      ensures Contents() == Records(map[], map[])
    {
      records, ipToHostname := map[], map[];
    }

    method AddRecord(hostname: Name, ip: A)
      requires Confirmed(Contents())
      modifies this
      ensures Contents() == Added(old(Contents()), hostname, ip) && Confirmed(Contents())
    {
      AddedKeeps(Contents(), hostname, ip);
      if hostname != [] {
        if hostname in records {
          var oldIp := records[hostname];
          if oldIp != ip && oldIp in ipToHostname && ipToHostname[oldIp] == hostname {
            ipToHostname := ipToHostname - {oldIp};
          }
        }
        records := records[hostname := ip];
        ipToHostname := ipToHostname[ip := hostname];
      }
    }

    method RemoveRecord(hostname: Option<Name>, ip: Option<A>)
      requires Confirmed(Contents())
      modifies this
      ensures Confirmed(Contents())
      ensures Contents() ==
        if hostname.Some? && hostname.value != [] && hostname.value in old(records)
          then HostRemoved(old(Contents()), hostname.value)
        else if ip.Some? then AddressRemoved(old(Contents()), ip.value)
        else old(Contents())
    {
      if hostname.Some? && hostname.value != [] && hostname.value in records {
        HostRemovedKeeps(Contents(), hostname.value);
        var address := records[hostname.value];
        records := records - {hostname.value};
        if address in ipToHostname && ipToHostname[address] == hostname.value {
          ipToHostname := ipToHostname - {address};
        }
      } else if ip.Some? && ip.value in ipToHostname {
        AddressRemovedKeeps(Contents(), ip.value);
        var name := ipToHostname[ip.value];
        ipToHostname := ipToHostname - {ip.value};
        if name in records && records[name] == ip.value {
          records := records - {name};
        }
      }
    }
  }
}
