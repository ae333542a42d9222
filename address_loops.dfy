/**
  The two loops of the address layer, `AddInstances` and `AddEntries`: each
  walks the names, reassigning its address accumulator and returning at the
  first error. Each is proved to compute the left fold of module `Address`.
*/
module AddressLoops {
  import opened Outcomes
  import Address

  /** Adds each instance name in turn; the first failure is returned and the partial address dropped. */
  method AddInstances(address: Address.AddrStr, instances: seq<string>) returns (r: Result<Address.AddrStr, Address.Error>)
    ensures r == Address.AddInstances(address, instances)
  {
    var current := address;
    var i := 0;
    while i < |instances|
      invariant 0 <= i <= |instances|
      invariant Address.AddInstances(address, instances) == Address.AddInstances(current, instances[i..])
    {
      assert instances[i..][1..] == instances[i + 1..];
      var step := Address.AddInstance(current, instances[i]);
      if step.Err? {
        return Err(step.error);
      }
      current := step.value;
      i := i + 1;
    }
    return Ok(current);
  }

  /** Adds each entry name in turn; the first failure is returned and the partial address dropped. */
  method AddEntries(address: Address.AddrStr, entries: seq<string>) returns (r: Result<Address.AddrStr, Address.Error>)
    ensures r == Address.AddEntries(address, entries)
  {
    var current := address;
    var i := 0;
    while i < |entries|
      invariant 0 <= i <= |entries|
      invariant Address.AddEntries(address, entries) == Address.AddEntries(current, entries[i..])
    {
      assert entries[i..][1..] == entries[i + 1..];
      var step := Address.AddEntry(current, entries[i]);
      if step.Err? {
        return Err(step.error);
      }
      current := step.value;
      i := i + 1;
    }
    return Ok(current);
  }
}
