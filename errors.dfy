/** The four sentinel errors of the health-check package (error.go). */
module Errors {

  datatype HealthError =
    | HealthCheckFailed                // a check's Pass returned false
    | HealthCheckNamesConflict         // two checks of one request share a name
    | ConfigsMethodEndpointConflict    // two registrations share a method+endpoint key
    | EmptyConfigs                     // registration was given no configuration
}
