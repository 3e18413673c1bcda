/** `lauxus_has_rights`, and the rights of a user on a node. */
module AccessRights {
  import opened ByteStrings
  import opened NodeRecords

  const READ_RIGHT := Rights(false, true, false, false)
  const WRITE_RIGHT := Rights(false, false, true, false)
  const OWNER_RIGHT := Rights(true, true, true, true)

  /** An owner has every right; the requested owner bit is not looked at. */
  predicate HasRights(min: Rights, rights: Rights) {
    rights.owner || ((min.read ==> rights.read) && (min.write ==> rights.write) && (min.exec ==> rights.exec))
  }

  /** `Node::has_user_rights` of a file or directory node. */
  predicate HasUserRights(entitlements: map<Bytes, Rights>, min: Rights, user: Bytes) {
    user == ROOT_UUID || (CString(user) in entitlements && HasRights(min, entitlements[CString(user)]))
  }
}
