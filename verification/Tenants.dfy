/** Tenant records (pkg/model/tenant.go). */
module Tenants {
  import opened Tuples

  datatype TenantStatus = Pending | Active | Suspended | Deleted

  // Go's SchemaMode is an open string type; `OtherMode` stands for every value without a name.
  datatype SchemaMode = Own | Shared | Inherited | OtherMode(text: string)

  datatype Tenant = Tenant(id: string, displayName: string, status: TenantStatus, mode: SchemaMode,
                           sharedRef: string, createdAt: Time, updatedAt: Time) {
    predicate IsReadable() {
      status == Active || status == Suspended
    }
  }

  // The tenant a request runs for, as loaded when the request's context was built.
  datatype TenantContext = TenantContext(tenantId: string, tenant: Tenant)
}
