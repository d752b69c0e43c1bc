/**
 * The device name table of `sharp_hems/device.py`: a list of (address, name) entries loaded
 * from the device definition file, looked up by address ignoring case, and reloaded only
 * when the file's modification time differs from the one recorded at the last load.
 */
module Device {
  import opened Wrappers

  datatype DevInfo = DevInfo(addr: string, name: string)

  function LowerChar(c: char): (d: char)
    ensures 'A' <= c <= 'Z' ==> d == c - 'A' + 'a'
    ensures !('A' <= c <= 'Z') ==> d == c
  {
    if 'A' <= c <= 'Z' then c - 'A' + 'a' else c
  }

  function UpperChar(c: char): (d: char)
    ensures 'a' <= c <= 'z' ==> d == c - 'a' + 'A'
    ensures !('a' <= c <= 'z') ==> d == c
  {
    if 'a' <= c <= 'z' then c - 'a' + 'A' else c
  }

  /** `str.lower()` on ASCII text. */
  function Lower(s: string): (r: string)
    ensures |r| == |s| && forall i :: 0 <= i < |s| ==> r[i] == LowerChar(s[i])
  {
    if s == [] then [] else [LowerChar(s[0])] + Lower(s[1..])
  }

  /** `str.upper()` on ASCII text. */
  function Upper(s: string): (r: string)
    ensures |r| == |s| && forall i :: 0 <= i < |s| ==> r[i] == UpperChar(s[i])
  {
    if s == [] then [] else [UpperChar(s[0])] + Upper(s[1..])
  }

  /** Two spellings of an address that differ only in case. */
  predicate SameAddr(a: string, b: string) {
    Lower(a) == Lower(b)
  }

  /** Entry `i` is the first whose address equals `addr` ignoring case. */
  predicate IsFirstMatch(list: seq<DevInfo>, addr: string, i: int) {
    0 <= i < |list| && SameAddr(list[i].addr, addr) && forall j :: 0 <= j < i ==> !SameAddr(list[j].addr, addr)
  }

  /**
   * The name of the first entry whose address equals `addr` ignoring case; `None` when no
   * entry matches.
   */
  function FindName(list: seq<DevInfo>, addr: string): (r: Option<string>)
    ensures r.None? <==> forall i :: 0 <= i < |list| ==> !SameAddr(list[i].addr, addr)
    ensures r.Some? ==> exists i :: IsFirstMatch(list, addr, i) && list[i].name == r.value
  {
    if list == [] then None
    else if SameAddr(list[0].addr, addr) then Some(list[0].name)
    else
      var r := FindName(list[1..], addr);
      if r.Some? then
        var i :| IsFirstMatch(list[1..], addr, i) && list[1..][i].name == r.value;
        assert IsFirstMatch(list, addr, i + 1);
        r
      else r
  }

  /** The lookup depends on the address only up to case. */
  lemma {:induction false} FindNameIgnoresCase(list: seq<DevInfo>, a: string, b: string)
    requires SameAddr(a, b)
    ensures FindName(list, a) == FindName(list, b)
  {
    if list != [] {
      FindNameIgnoresCase(list[1..], a, b);
    }
  }

  /** Lower-casing an upper-cased address gives the lower-cased address. */
  lemma {:induction false} LowerOfUpper(s: string)
    ensures Lower(Upper(s)) == Lower(s)
  {
    if s != [] {
      LowerOfUpper(s[1..]);
      assert Upper(s)[1..] == Upper(s[1..]);
    }
  }

  /** So the upper- and lower-case spellings of an address find the same name. */
  lemma FindNameAnyCase(list: seq<DevInfo>, addr: string)
    ensures FindName(list, Upper(addr)) == FindName(list, addr)
    ensures FindName(list, Lower(addr)) == FindName(list, addr)
  {
    LowerOfUpper(addr);
    FindNameIgnoresCase(list, Upper(addr), addr);
    LowerIdempotent(addr);
    FindNameIgnoresCase(list, Lower(addr), addr);
  }

  lemma {:induction false} LowerIdempotent(s: string)
    ensures Lower(Lower(s)) == Lower(s)
  {
    if s != [] {
      LowerIdempotent(s[1..]);
      assert Lower(s)[1..] == Lower(s[1..]);
    }
  }

  /** The module state of `device.py`: `addr_list`, `addr_list_cache` and `dev_config_mtime`. */
  class DeviceRegistry {
    var addrList: seq<DevInfo>
    var addrListCache: Option<seq<DevInfo>>
    var configMtime: Option<real>

    /** Once a load has been recorded, the cache is the loaded list. */
    ghost predicate Valid()
      reads this
    {
      configMtime.Some? ==> addrListCache == Some(addrList)
    }

    /** The state at import: nothing loaded. */
    constructor ()
      ensures Valid()
      ensures addrList == [] && addrListCache == None && configMtime == None
    {
      addrList := [];
      addrListCache := None;
      configMtime := None;
    }

    /** `get_name`: a scan of the list that stops at the first entry matching `addr` ignoring case. */
    method GetName(addr: string) returns (name: Option<string>)
      ensures name == FindName(addrList, addr)
    {
      var wanted := Lower(addr);
      var i := 0;
      while i < |addrList|
        invariant 0 <= i <= |addrList|
        invariant FindName(addrList, addr) == FindName(addrList[i..], addr)
      {
        if Lower(addrList[i].addr) == wanted {
          return Some(addrList[i].name);
        }
        assert addrList[i..][1..] == addrList[i + 1..];
        i := i + 1;
      }
      return None;
    }

    /** `get_list`: the names of the entries, one per entry, in list order. */
    function GetList(): (names: seq<string>)
      reads this
      ensures |names| == |addrList|
      ensures forall i :: 0 <= i < |addrList| ==> names[i] == addrList[i].name
    {
      seq(|addrList|, i requires 0 <= i < |addrList| reads this => addrList[i].name)
    }

    /**
     * `reload`, given the file's current modification time and what loading it would yield.
     * When the recorded time equals the current one nothing changes and the cached list is
     * returned; otherwise the list and the cache become the loaded content and the time is recorded.
     */
    method Reload(mtime: real, loaded: seq<DevInfo>) returns (r: seq<DevInfo>)
      requires Valid()
      modifies this
      ensures Valid()
      ensures old(configMtime) == Some(mtime) ==>
        r == old(addrList) && addrList == old(addrList) && addrListCache == old(addrListCache) && configMtime == old(configMtime)
      ensures old(configMtime) != Some(mtime) ==>
        r == loaded && addrList == loaded && addrListCache == Some(loaded) && configMtime == Some(mtime)
    {
      if configMtime.Some? && configMtime.value == mtime {
        return addrListCache.value;
      }
      addrList := loaded;
      addrListCache := Some(addrList);
      configMtime := Some(mtime);
      r := addrList;
    }
  }
}
