/** What every operation of `pyscoped` runs under (`pyscoped/context.py`) and what registering a model asks for. */
module Contexts {
  /** `token` stands for object identity: `current_context() is not ...` compares objects, not scopes. */
  datatype Context = Context(token: nat, actor: string, scope: string, reason: string, requestId: string)

  datatype Mode = Audit | Enforce
}
