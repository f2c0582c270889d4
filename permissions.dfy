/**
 * The fixed catalogue of permission keys and their labels that
 * `getAvailablePermissions` returns.
 */
module Permissions {
  import opened RoleModel

  const Catalogue: seq<(string, string)> := [
    ("manage_users", "Gérer les utilisateurs"),
    ("manage_roles", "Gérer les rôles"),
    ("manage_dictionaries", "Gérer les dictionnaires"),
    ("view_audit_logs", "Voir les logs d'audit"),
    ("access_admin_dashboard", "Accéder au dashboard admin"),
    ("activate_users", "Activer les utilisateurs"),
    ("assign_roles", "Attribuer des rôles"),
    ("reset_passwords", "Réinitialiser les mots de passe"),
    ("view_dossiers", "Voir les dossiers"),
    ("create_dossiers", "Créer des dossiers"),
    ("edit_dossiers", "Modifier des dossiers"),
    ("delete_dossiers", "Supprimer des dossiers"),
    ("validate_dossiers", "Valider des dossiers"),
    ("export_data", "Exporter des données")
  ]

  /** The permission keys of the catalogue. */
  function Keys(): (ks: set<string>)
    ensures forall k :: k in ks <==> exists i :: 0 <= i < |Catalogue| && Catalogue[i].0 == k
  {
    set i | 0 <= i < |Catalogue| :: Catalogue[i].0
  }

  /** `getAvailablePermissions`: always 200 with the fourteen entries, each
      key appearing once. */
  function GetAvailablePermissions(): (r: Response)
    ensures r.status == 200 && r.data.Labels?
    ensures |r.data.catalogue| == 14
    ensures forall i, j :: 0 <= i < j < |r.data.catalogue| ==> r.data.catalogue[i].0 != r.data.catalogue[j].0
    ensures forall k :: k in Keys() <==> exists i :: 0 <= i < |r.data.catalogue| && r.data.catalogue[i].0 == k
  {
    Response(200, NoMessage, Labels(Catalogue))
  }
}
