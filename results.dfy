/** Failure-carrying values shared by the MAC generator and the cloud-init renderer. */
module Results {

  /** An optional value: the outcome of a foreign call that may fail, or of a parse. */
  datatype Option<T> = None | Some(value: T)

  /** The error kinds the two core helpers of proxmox-k8s/main.go can return. */
  datatype Error =
    | RandomSourceError     // crypto/rand could not fill the buffer
    | TemplateReadError     // the cloud-init template file could not be read
    | TemplateRenderError   // the substituted text is not a YAML document

  /** Go's `(value, error)` pair: `Ok(v)` stands for `(v, nil)`, `Err(e)` for `("", e)`. */
  datatype Result<T> = Ok(value: T) | Err(error: Error)
}
