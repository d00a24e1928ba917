/** IAM policies of folders and the set mode of the folder/IAM tool, which grants
    one member one role on one folder. */
module Iam {
  import opened Calls

  /** A role granted to a list of member identities. */
  datatype Binding = Binding(role: string, members: seq<string>)

  /** An IAM policy: a version number and its bindings, in order. */
  datatype Policy = Policy(version: int, bindings: seq<Binding>)

  /** The call that fetches the IAM policy of a folder. */
  type PolicyGetter = string -> Reply<Policy>

  /** The policy-write request that set mode issues for a folder. */
  datatype SetRequest = SetRequest(folder: string, policy: Policy)

  /** The binding both modes add: `role` granted to `user` alone. Nothing checks
      either string: empty flags are passed on as they are. */
  method NewBinding(role: string, user: string) returns (binding: Binding)
    ensures binding.role == role && binding.members == [user]
  {
    binding := Binding("", []);
    binding := binding.(members := binding.members + [user]);
    binding := binding.(role := role);
  }

  /** Overwrite mode: a fresh policy of version 1 whose only binding grants
      `role` to `user`. It is built from nothing, so no binding of the folder's
      current policy survives. */
  method OverwritePolicy(role: string, user: string) returns (policy: Policy)
    ensures policy.version == 1
    ensures |policy.bindings| == 1 && policy.bindings[0] == Binding(role, [user])
  {
    var binding := NewBinding(role, user);
    policy := Policy(0, []);
    policy := policy.(version := 1);
    policy := policy.(bindings := policy.bindings + [binding]);
  }

  /** Merge mode: the fetched policy with one binding granting `role` to `user`
      appended at the end. Every existing binding stays, unchanged and in order,
      and the version is kept. Nothing looks for an equal binding: adding one that
      is already there makes it occur once more. */
  method MergePolicy(fetched: Policy, role: string, user: string) returns (policy: Policy)
    ensures policy.version == fetched.version
    ensures |policy.bindings| == |fetched.bindings| + 1
    ensures policy.bindings[..|fetched.bindings|] == fetched.bindings
    ensures policy.bindings[|fetched.bindings|] == Binding(role, [user])
    ensures multiset(policy.bindings) == multiset(fetched.bindings) + multiset{Binding(role, [user])}
  {
    var binding := NewBinding(role, user);
    policy := fetched;
    policy := policy.(bindings := policy.bindings + [binding]);
    assert policy.bindings[..|fetched.bindings|] == fetched.bindings;
  }

  /** Set mode: in overwrite mode, write the fresh one-binding policy without
      reading the folder's policy; otherwise fetch the folder's policy (a failure
      aborts before anything is written), append the new binding and write it back.
      `lookups` lists the folders whose policy is fetched. */
  method SetMode(getPolicy: PolicyGetter, folder: string, role: string, user: string, overwrite: bool)
    returns (lookups: seq<string>, r: Result<SetRequest>)
    ensures overwrite ==> lookups == [] && r.Success? && r.value.folder == folder &&
                          r.value.policy == Policy(1, [Binding(role, [user])])
    ensures !overwrite ==> lookups == [folder]
    ensures !overwrite && getPolicy(folder).Error? ==> r == Fatal(folder)
    ensures !overwrite && getPolicy(folder).Ok? ==>
              r.Success? && r.value.folder == folder &&
              r.value.policy == Policy(getPolicy(folder).value.version,
                                       getPolicy(folder).value.bindings + [Binding(role, [user])])
  {
    if overwrite {
      lookups := [];
      var policy := OverwritePolicy(role, user);
      assert policy.bindings == [Binding(role, [user])];
      r := Success(SetRequest(folder, policy));
    } else {
      lookups := [folder];
      var reply := getPolicy(folder);
      if reply.Error? {
        return lookups, Fatal(folder);
      }
      var policy := MergePolicy(reply.value, role, user);
      assert policy.bindings == reply.value.bindings + [Binding(role, [user])];
      r := Success(SetRequest(folder, policy));
    }
  }
}
