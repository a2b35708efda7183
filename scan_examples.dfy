/** The directory scan on one concrete tree: infra/a holds main.tf and vars.tf, infra/b
    holds main.tf and a provider cache under infra/b/.terraform. Each fact about one
    literal path is stated on a parameter equal to it, so that the verifier does not
    unfold the string functions on every literal at once. */
module ScanExamples {
  import opened Strings
  import opened ScriptUtils

  lemma CacheExcluded(p: string)
    requires p == "./infra/b/.terraform/cache.tf"
    ensures Excluded(p)
  {
    assert OccursAt(p, ".terraform", 10);
    ContainsIff(p, ".terraform");
    assert ".terraform" in ExcludeDirs;
  }

  /** Each of the three Terraform files outside the cache is kept and gives its directory. */
  lemma KeptInfraFile(p: string, d: string)
    requires || (p == "./infra/a/main.tf" && d == "./infra/a")
             || (p == "./infra/a/vars.tf" && d == "./infra/a")
             || (p == "./infra/b/main.tf" && d == "./infra/b")
    ensures !Excluded(p) && Dirname(p) == d
  {
    if p == "./infra/a/vars.tf" {
      KeptFile(d, "vars.tf", p);
    } else {
      KeptFile(d, "main.tf", p);
    }
  }

  lemma AComesBeforeB(da: string, db: string)
    requires da == "./infra/a" && db == "./infra/b"
    ensures Below(da, db)
  {
    assert Below("./infra/a", "./infra/b");
  }

  lemma DirectoriesOfTree(a1: string, a2: string, b1: string, bc: string, da: string, db: string)
    requires a1 == "./infra/a/main.tf" && a2 == "./infra/a/vars.tf" && b1 == "./infra/b/main.tf"
    requires bc == "./infra/b/.terraform/cache.tf" && da == "./infra/a" && db == "./infra/b"
    ensures Directories([a1, a2, b1, bc]) == [da, db]
  {
    CacheExcluded(bc);
    KeptInfraFile(a1, da);
    KeptInfraFile(a2, da);
    KeptInfraFile(b1, db);
    AComesBeforeB(da, db);
    TwoDirectories(a1, a2, b1, bc, da, db);
  }

  /** The cache file is dropped and the two files of infra/a give one entry: the result
      is the two directories, each once, in order. */
  lemma ExampleDirectories()
    ensures Directories(["./infra/a/main.tf", "./infra/a/vars.tf", "./infra/b/main.tf", "./infra/b/.terraform/cache.tf"])
      == ["./infra/a", "./infra/b"]
  {
    DirectoriesOfTree("./infra/a/main.tf", "./infra/a/vars.tf", "./infra/b/main.tf",
      "./infra/b/.terraform/cache.tf", "./infra/a", "./infra/b");
  }

  /** The whole scan, from the output of `find`, which prints one path per line. */
  lemma TwoDirectoriesExample()
    ensures FindTerraformDirectories(
      Join(["./infra/a/main.tf", "./infra/a/vars.tf", "./infra/b/main.tf", "./infra/b/.terraform/cache.tf"], '\n') + "\n")
      == ["./infra/a", "./infra/b"]
  {
    ScanOfFindOutput(["./infra/a/main.tf", "./infra/a/vars.tf", "./infra/b/main.tf", "./infra/b/.terraform/cache.tf"]);
    ExampleDirectories();
  }
}
