/**
 * The destination policy: which output file an object of a given kind goes to.
 * A fixed table sends the RBAC, CRD and webhook kinds to shared files; every
 * other kind goes to its lower-cased name plus the `.yaml` extension.
 */
module Naming {

  /** The extension appended to every default destination. */
  const Ext: string := ".yaml"

  /** The RBAC kinds, which all share `rbac.yaml`. */
  const RbacKinds: set<string> :=
    {"Role", "ClusterRole", "RoleBinding", "ClusterRoleBinding", "ServiceAccount"}

  /** The admission webhook kinds, which share `webhook.yaml`. */
  const WebhookKinds: set<string> :=
    {"MutatingWebhookConfiguration", "ValidatingWebhookConfiguration"}

  /** The override table: kinds that are written to a shared file. */
  const CombinedKinds: map<string, string> := map[
    "Role" := "rbac.yaml",
    "ClusterRole" := "rbac.yaml",
    "RoleBinding" := "rbac.yaml",
    "ClusterRoleBinding" := "rbac.yaml",
    "ServiceAccount" := "rbac.yaml",
    "CustomResourceDefinition" := "crds.yaml",
    "MutatingWebhookConfiguration" := "webhook.yaml",
    "ValidatingWebhookConfiguration" := "webhook.yaml"
  ]

  predicate IsUpper(c: char) {
    'A' <= c <= 'Z'
  }

  /** ASCII lower-casing of one character. */
  function LowerChar(c: char): char {
    if IsUpper(c) then (c as int + 32) as char else c
  }

  /** ASCII lower-casing of a string, character by character. */
  function Lower(s: string): string {
    seq(|s|, i requires 0 <= i < |s| => LowerChar(s[i]))
  }

  /** No character of `s` is an upper-case ASCII letter. */
  predicate NoUpper(s: string) {
    forall i :: 0 <= i < |s| ==> !IsUpper(s[i])
  }

  predicate EndsWith(s: string, suffix: string) {
    |suffix| <= |s| && s[|s| - |suffix|..] == suffix
  }

  /**
   * The file an object of kind `kind` is written to. Whatever the kind, the
   * name ends in the extension and carries no upper-case letter.
   */
  function Destination(kind: string): (r: string)
    ensures EndsWith(r, Ext)
    ensures NoUpper(r)
  {
    if kind in CombinedKinds then CombinedKinds[kind] else Lower(kind) + Ext
  }

  /** Lower-casing keeps the length, leaves no upper-case letter and is idempotent. */
  lemma LowerProperties(s: string)
    ensures |Lower(s)| == |s|
    ensures NoUpper(Lower(s))
    ensures Lower(Lower(s)) == Lower(s)
    ensures NoUpper(s) ==> Lower(s) == s
  {
  }

  /** Every table entry overrides the default name the kind would otherwise get. */
  lemma TableOverridesDefault(kind: string)
    requires kind in CombinedKinds
    ensures Destination(kind) == CombinedKinds[kind]
    ensures Destination(kind) != Lower(kind) + Ext
  {
    var d := Lower(kind) + Ext;
    assert |d| == |kind| + 5;
    if kind == "Role" {
      // same length as "rbac.yaml"; they differ in the second letter
      assert d[1] == LowerChar(kind[1]) == 'o';
    } else {
      assert |d| != |CombinedKinds[kind]|;
    }
  }

  /** A kind outside the table, an empty or missing kind included, gets the default name. */
  lemma DefaultDestination(kind: string)
    requires kind !in CombinedKinds
    ensures Destination(kind) == Lower(kind) + Ext
    ensures kind == "" ==> Destination(kind) == ".yaml"
  {
  }

  /** The table co-locates the RBAC kinds, the webhook kinds, and the CRD kind. */
  lemma CombinedKindsColocate(k1: string, k2: string)
    ensures k1 in RbacKinds && k2 in RbacKinds ==>
              Destination(k1) == Destination(k2) == "rbac.yaml"
    ensures k1 in WebhookKinds && k2 in WebhookKinds ==>
              Destination(k1) == Destination(k2) == "webhook.yaml"
    ensures Destination("CustomResourceDefinition") == "crds.yaml"
    ensures k1 in CombinedKinds && k2 in CombinedKinds ==>
              (Destination(k1) == Destination(k2) <==>
                 (k1 in RbacKinds && k2 in RbacKinds) || (k1 in WebhookKinds && k2 in WebhookKinds) || k1 == k2)
  {
  }

  /**
   * Two kinds outside the table share a file exactly when they agree up to
   * ASCII case: the default name is case-insensitive and otherwise injective.
   */
  lemma DefaultDestinationIff(k1: string, k2: string)
    requires k1 !in CombinedKinds && k2 !in CombinedKinds
    ensures Destination(k1) == Destination(k2) <==> Lower(k1) == Lower(k2)
  {
    var a, b := Lower(k1) + Ext, Lower(k2) + Ext;
    if a == b {
      assert Lower(k1) == a[..|a| - |Ext|] == b[..|b| - |Ext|] == Lower(k2);
    }
  }

  /** A kind outside the table, such as Deployment, names its own file. */
  lemma DeploymentDestination()
    ensures Destination("Deployment") == "deployment.yaml"
  {
    assert "Deployment" !in CombinedKinds;
    var l := Lower("Deployment");
    assert |l| == 10;
    assert l[0] == 'd';
    assert l == "deployment";
  }
}
